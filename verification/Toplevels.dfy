/** Creating widgets on screen: the lists of children follow the runs of `ChildLists`, and a new toplevel
    gets its resize button and its close button. */
module Toplevels {
  import opened Geometry
  import opened Surfaces
  import opened WidgetTree
  import opened Invalidation
  import opened Hierarchy
  import opened Destroying
  import opened Placement
  import opened Layout
  import opened Placer
  import opened ChildLists

  /** The lists of children that the pointers of the widgets spell out. */
  ghost function ListsOf(app: App): Lists
    reads app, app.all`resizable, app.all`isResizeButton
  {
    Lists(app.kids, set w | w in app.all && ResizableToplevel(w), set w | w in app.all && IsResize(w))
  }

  lemma ListsAreClosed(app: App)
    requires app.Valid()
    ensures ListsOf(app).Closed()
  {
    hide PickColor, Chained;
    assert forall p | p in app.all :: app.Node(p);
    forall p, c | p in app.kids && c in app.kids[p]
      ensures c in app.all && c.parent == p
    {
      var i :| 0 <= i < |app.kids[p]| && app.kids[p][i] == c;
      assert app.Child(p, i);
    }
  }

  lemma {:induction false} FirstAgrees(app: App, s: seq<Widget>, i: nat)
    requires i <= |s| && forall c | c in s :: c in app.all
    ensures FirstResize(s, i) == FirstIn(s, i, ListsOf(app).resizes)
    decreases |s| - i
  {
    if i < |s| {
      assert s[i] in s;
      FirstAgrees(app, s, i + 1);
    }
  }

  /** A new child goes where the lists say, and the create demands what the lists say. */
  lemma PlacesAgree(app: App, p: Widget)
    requires app.Valid() && p in app.all
    ensures InsertIndex(p, app.kids[p]) == PlaceOf(ListsOf(app), p)
    ensures HasResize(p, app.kids[p]) <==> FindsResize(ListsOf(app), p)
  {
    hide FirstResize, FirstIn;
    assert app.Node(p);
    if |app.kids[p]| >= 1 {
      FirstAgrees(app, app.kids[p], 1);
    }
  }

  /** Creates a frame or a button. */
  method CreateChild(app: App, wclass: WidgetClass, parent: Widget) returns (w: Widget)
    requires app.Valid() && parent in app.all && wclass != ToplevelClass && FindsResize(ListsOf(app), parent)
    modifies app`widId, app`all, app`kids, app.all`childrenHead, app.all`childrenTail, app.all`nextSibling
    ensures app.Valid() && fresh(w) && w.wclass == wclass && w.parent == parent && app.all == old(app.all) + {w}
    ensures !w.isResizeButton && !w.noClipping && w.Unplaced() && w in app.kids && app.kids[w] == []
    ensures New(old(ListsOf(app)), w) && ListsOf(app) == Created(old(ListsOf(app)), parent, w)
  {
    hide App.Node, InsertedAt, InsertIndex, PlaceOf, HasResize, FindsResize;
    PlacesAgree(app, parent);
    w := CreateWidget(app, wclass, parent);
  }

  const RESIZE_BUTTON: Placing :=
    Placing(Some(SouthEast), Some(0), Some(0), None, None, Some(1.0), Some(1.0), None, None)

  const CLOSE_BUTTON: Placing :=
    Placing(None, Some(6), Some(9 - DEFAULT_TOPBAR_HEIGHT), None, None, None, None, None, None)

  /** What the first placement of a button lists: the place it had, nowhere, and its content. */
  function ListedByButton(list: seq<Rect>, place: Rect, window: Size): seq<Rect> {
    Invalidated(Invalidated(list, Extended(NOWHERE), window), Content(ButtonClass, 4, place), window)
  }

  /** The first placement of a button leaves it at its place, with its content clipped to the window. */
  lemma ButtonPlaced(g: Geo, a: Placing, parent: Rect, window: Size, list: seq<Rect>)
    requires g.wclass == ButtonClass && g.border == 4 && g.screen == NOWHERE && !g.mapped && g.own == None
    requires Placed(WithArguments(a, true, g.params, g.requested), g.requested, parent) != NOWHERE
    ensures var m := Managed(Tree(g, []), a);
            var place, r := m.geo.Place(parent), Layout.Run(m, parent, window).geo;
            && r.screen == place && r.own == Some(Clipped(Content(ButtonClass, 4, place), window))
            && r.params == m.geo.params && r.mapped && r.border == 4
            && Listed(m, parent, window, list) == ListedByButton(list, place, window)
  {
    hide Placed, WithArguments, Invalidated;
  }

  /** Gives a new button its size and places it in its toplevel. */
  method PlaceButton(app: App, list: RectList, b: Widget, size: Size, a: Placing)
    requires app.Valid() && list.Valid() && b in app.all && b.parent != null && app.kids[b] == []
    requires b.wclass == ButtonClass && b.Unplaced()
    requires Placed(WithArguments(a, true, b.params, size), size, ParentContent(b)) != NOWHERE
    modifies Below(app, b)`screenLocation, Below(app, b)`ownContent, Below(app, b)`drawRect, b`mapped, b`params,
             b`requestedSize, list, list.nodes
    ensures list.Valid() && forall k | 0 <= k < |list.nodes| :: list.nodes[k] in old(list.nodes) || fresh(list.nodes[k])
    ensures b.mapped && b.params == WithArguments(a, true, old(b.params), size) && b.requestedSize == size
    ensures var place := Placed(b.params, size, old(ParentContent(b)));
            && b.screenLocation == place && b.ownContent == Some(Clipped(Content(ButtonClass, 4, place), list.window))
            && list.Rects() == ListedByButton(old(list.Rects()), place, list.window)
  {
    hide App.Node, Under, WithArguments, Listed, Layout.Run, Full, ReadyFor, Consistent, RectList.Valid,
         RectList.Rects, TreeOf, Managed, Placed, ListedByButton;
    b.requestedSize := size;
    TreeParts(app, b);
    assert KidTrees(app, b) == [];
    ghost var t, parent := Managed(TreeOf(app, b), a), ParentContent(b);
    assert TreeOf(app, b) == Tree(GeoOf(b), []);
    ButtonPlaced(GeoOf(b), a, parent, list.window, list.Rects());
    ManagedParams(GeoOf(b), a);
    Place(app, list, b, a);
    assert TreeOf(app, b).geo == GeoOf(b);
  }

  lemma ManagedParams(g: Geo, a: Placing)
    requires !g.mapped
    ensures Managed(Tree(g, []), a).geo.params == WithArguments(a, true, g.params, g.requested)
    ensures Managed(Tree(g, []), a).geo.requested == g.requested
  {
    hide WithArguments;
  }

  /** Creates the widget of a toplevel, without its buttons. */
  method CreateFrameOf(app: App, parent: Widget) returns (w: Widget)
    requires app.Valid() && parent in app.all && FindsResize(ListsOf(app), parent)
    modifies app`widId, app`all, app`kids, app.all`childrenHead, app.all`childrenTail, app.all`nextSibling
    ensures app.Valid() && fresh(w) && w.wclass == ToplevelClass && w.parent == parent && app.all == old(app.all) + {w}
    ensures var c := Created(old(ListsOf(app)), parent, w); ListsOf(app) == c.(toplevels := c.toplevels + {w})
    ensures w !in old(app.kids) && app.kids[w] == [] && w.Unplaced()
  {
    hide App.Node, InsertedAt, InsertIndex, PlaceOf, HasResize, FindsResize;
    PlacesAgree(app, parent);
    w := CreateWidget(app, ToplevelClass, parent);
  }

  /** The lists after a toplevel and its two buttons have been created one after the other. */
  lemma TwoButtons(l: Lists, p: Widget, w: Widget, resize: Widget, quit: Widget)
    requires p in l.kids && New(l, w) && New(l, resize) && New(l, quit) && w != resize && w != quit && resize != quit
    ensures var c := Created(l, p, w);
            var framed := c.(toplevels := c.toplevels + {w});
            var d := Created(framed, w, resize);
            Created(d.(resizes := d.resizes + {resize}), w, quit) == CreatedToplevel(l, p, w, resize, quit)
  {
    var c := Created(l, p, w);
    assert c.kids[w] == [];
    hide Created;
    OneAfterAnother(c.(toplevels := c.toplevels + {w}), w, resize, quit);
  }

  lemma OneAfterAnother(l: Lists, w: Widget, resize: Widget, quit: Widget)
    requires w in l.kids && l.kids[w] == [] && w in l.toplevels && w != resize && w != quit && resize != quit
    ensures var d := Created(l, w, resize);
            Created(d.(resizes := d.resizes + {resize}), w, quit) == WithButtons(l, w, resize, quit)
  {
    var d := Created(l, w, resize);
    assert d.kids[w] == [resize];
    assert InsertedAt([resize], 0, quit) == [quit, resize];
    assert l.toplevels + {w} == l.toplevels;
    assert Created(d.(resizes := d.resizes + {resize}), w, quit).kids == WithButtons(l, w, resize, quit).kids;
  }

  lemma OnlyChild(l: Lists, w: Widget, c: Widget)
    requires w in l.kids && l.kids[w] == [] && w != c
    ensures Created(l, w, c).kids[w] == [c]
  {
  }

  lemma KnownWidgets(app: App)
    requires app.Valid()
    ensures ListsOf(app).kids.Keys == app.all
  {
  }

  lemma FewFindResize(l: Lists, w: Widget)
    requires w in l.kids && |l.kids[w]| <= 1
    ensures FindsResize(l, w)
  {
  }

  /** Nothing but itself is below a widget without children. */
  lemma LeafBelow(app: App, b: Widget)
    requires app.Valid() && b in app.all && app.kids[b] == []
    ensures Below(app, b) == {b}
  {
    forall x | x in app.all
      ensures Under(app, x, b) <==> x == b
    {
      if x != b && Under(app, x, b) {
        UnderFirst(app, x, b);
      }
    }
  }

  /** Where the buttons of a toplevel go in its content. */
  function ResizePlace(content: Rect): Rect {
    Rect(Point(content.Right() - 20, content.Bottom() - 20), Size(20, 20))
  }

  function QuitPlace(content: Rect): Rect {
    Rect(Point(content.Left() + 6, content.Top() - 21), Size(10, 10))
  }

  const RESIZE_PARAMS := PlacerParams(SouthEast, 0, 0, 20, 20, 1.0, 1.0, 0.0, 0.0)

  const QUIT_PARAMS := PlacerParams(NorthWest, 6, 9 - DEFAULT_TOPBAR_HEIGHT, 10, 10, 0.0, 0.0, 0.0, 0.0)

  lemma ButtonPlaces(content: Rect, was: PlacerParams)
    ensures WithArguments(RESIZE_BUTTON, true, was, Size(20, 20)) == RESIZE_PARAMS
    ensures WithArguments(CLOSE_BUTTON, true, was, Size(10, 10)) == QUIT_PARAMS
    ensures Placed(RESIZE_PARAMS, Size(20, 20), content) == ResizePlace(content)
    ensures Placed(QUIT_PARAMS, Size(10, 10), content) == QuitPlace(content)
  {
    hide Truncated;
    NoShare(content.size.width, 20, 20);
    NoShare(content.size.height, 20, 20);
    NoShare(content.size.width, 10, 10);
    NoShare(content.size.height, 10, 10);
    assert content.size.width as real * 1.0 == content.size.width as real;
    assert content.size.height as real * 1.0 == content.size.height as real;
    assert content.size.width as real * 0.0 == 0.0 && content.size.height as real * 0.0 == 0.0;
    TruncatedWhole(content.Right());
    TruncatedWhole(content.Bottom());
    TruncatedWhole(content.Left() + 6);
    TruncatedWhole(content.Top() - 21);
  }

  lemma TruncatedWhole(n: int)
    ensures Truncated(n as real) == n
  {
  }

  /** Creates a toplevel with its resize button and its close button, which is not clipped by the toplevel.
      Both are placed while the toplevel is nowhere yet, and what they list is added to the list. */
  method CreateToplevel(app: App, list: RectList, parent: Widget) returns (w: Widget, resize: Widget, quit: Widget)
    requires app.Valid() && list.Valid() && parent in app.all && FindsResize(ListsOf(app), parent)
    modifies app`widId, app`all, app`kids, app.all`childrenHead, app.all`childrenTail, app.all`nextSibling, list, list.nodes
    ensures app.Valid() && list.Valid() && fresh({w, resize, quit}) && app.all == old(app.all) + {w, resize, quit}
    ensures ListsOf(app) == CreatedToplevel(old(ListsOf(app)), parent, w, resize, quit)
    ensures w.wclass == ToplevelClass && w.Unplaced() && resize.isResizeButton && !quit.isResizeButton
    ensures !resize.noClipping && quit.noClipping
    ensures PlacedAs(GeoOf(resize), ResizePlace(NOWHERE), RESIZE_PARAMS, Size(20, 20), list.window)
    ensures PlacedAs(GeoOf(quit), QuitPlace(NOWHERE), QUIT_PARAMS, Size(10, 10), list.window)
    ensures list.Rects() == ListedByCreation(old(list.Rects()), list.window)
  {
    hide App.Node, Created, CreatedToplevel, FindsResize, Under, RectList.Valid, RectList.Rects, ListsOf, ListedByCreation,
         PlacedAs, App.Valid, Widget.Unplaced;
    ghost var before := ListsOf(app);
    KnownWidgets(app);
    w := CreateFrameOf(app, parent);
    resize, quit := AddButtons(app, list, w);
    TwoButtons(before, parent, w, resize, quit);
  }

  /** Creates and places the two buttons of a new toplevel. */
  method AddButtons(app: App, list: RectList, w: Widget) returns (resize: Widget, quit: Widget)
    requires app.Valid() && list.Valid() && w in app.all && app.kids[w] == [] && w.Unplaced()
    modifies app`widId, app`all, app`kids, app.all`childrenHead, app.all`childrenTail, app.all`nextSibling, list, list.nodes
    ensures app.Valid() && list.Valid() && fresh({resize, quit}) && app.all == old(app.all) + {resize, quit}
    ensures New(old(ListsOf(app)), resize) && New(old(ListsOf(app)), quit) && resize != quit
    ensures var d := Created(old(ListsOf(app)), w, resize);
            ListsOf(app) == Created(d.(resizes := d.resizes + {resize}), w, quit)
    ensures resize.isResizeButton && !quit.isResizeButton && !resize.noClipping && quit.noClipping
    ensures PlacedAs(GeoOf(resize), ResizePlace(NOWHERE), RESIZE_PARAMS, Size(20, 20), list.window)
    ensures PlacedAs(GeoOf(quit), QuitPlace(NOWHERE), QUIT_PARAMS, Size(10, 10), list.window)
    ensures list.Rects() == ListedByCreation(old(list.Rects()), list.window)
  {
    hide App.Node, Created, FindsResize, Under, RectList.Valid, RectList.Rects, ListedByButton, PlacedAs, App.Valid,
         Widget.Unplaced;
    resize := AddResizeButton(app, list, w);
    quit := AddCloseButton(app, list, w);
  }

  /** A button has been placed here, and listing its content has clipped that to the window. */
  predicate PlacedAs(g: Geo, place: Rect, params: PlacerParams, size: Size, window: Size) {
    g.wclass == ButtonClass && g.mapped && g.params == params && g.requested == size && g.border == 4
    && g.screen == place && g.own == Some(Clipped(Content(ButtonClass, 4, place), window))
  }

  /** What creating a toplevel lists: what placing its two buttons lists. */
  function ListedByCreation(list: seq<Rect>, window: Size): seq<Rect> {
    ListedByButton(ListedByButton(list, ResizePlace(NOWHERE), window), QuitPlace(NOWHERE), window)
  }

  /** Creates and places the close button of a new toplevel. */
  method AddCloseButton(app: App, list: RectList, w: Widget) returns (quit: Widget)
    requires app.Valid() && list.Valid() && w in app.all && |app.kids[w]| == 1 && w.Unplaced()
    modifies app`widId, app`all, app`kids, app.all`childrenHead, app.all`childrenTail, app.all`nextSibling, list, list.nodes
    ensures app.Valid() && list.Valid() && fresh(quit) && app.all == old(app.all) + {quit} && quit.parent == w
    ensures forall k | 0 <= k < |list.nodes| :: list.nodes[k] in old(list.nodes) || fresh(list.nodes[k])
    ensures New(old(ListsOf(app)), quit) && ListsOf(app) == Created(old(ListsOf(app)), w, quit)
    ensures PlacedAs(GeoOf(quit), QuitPlace(NOWHERE), QUIT_PARAMS, Size(10, 10), list.window)
    ensures list.Rects() == ListedByButton(old(list.Rects()), QuitPlace(NOWHERE), list.window)
    ensures quit.noClipping && !quit.isResizeButton
  {
    hide App.Node, Created, FindsResize, Under, RectList.Valid, RectList.Rects, ListedByButton, WithArguments, Placed,
         App.Valid, Clipped, Content, Below;
    quit := NewCloseButton(app, w);
    LeafBelow(app, quit);
    ButtonPlaces(NOWHERE, quit.params);
    PlaceButton(app, list, quit, Size(10, 10), CLOSE_BUTTON);
  }

  /** Creates and places the resize button of a new toplevel. */
  method AddResizeButton(app: App, list: RectList, w: Widget) returns (resize: Widget)
    requires app.Valid() && list.Valid() && w in app.all && app.kids[w] == [] && w.Unplaced()
    modifies app`widId, app`all, app`kids, app.all`childrenHead, app.all`childrenTail, app.all`nextSibling, list, list.nodes
    ensures app.Valid() && list.Valid() && fresh(resize) && app.all == old(app.all) + {resize} && resize.parent == w
    ensures forall k | 0 <= k < |list.nodes| :: list.nodes[k] in old(list.nodes) || fresh(list.nodes[k])
    ensures var c := Created(old(ListsOf(app)), w, resize); ListsOf(app) == c.(resizes := c.resizes + {resize})
    ensures New(old(ListsOf(app)), resize) && app.kids[w] == [resize]
    ensures PlacedAs(GeoOf(resize), ResizePlace(NOWHERE), RESIZE_PARAMS, Size(20, 20), list.window)
    ensures list.Rects() == ListedByButton(old(list.Rects()), ResizePlace(NOWHERE), list.window)
    ensures resize.isResizeButton && !resize.noClipping
  {
    hide App.Node, Created, FindsResize, Under, RectList.Valid, RectList.Rects, ListedByButton, WithArguments, Placed,
         App.Valid, Clipped, Content, Below;
    resize := NewResizeButton(app, w);
    LeafBelow(app, resize);
    ButtonPlaces(NOWHERE, resize.params);
    PlaceButton(app, list, resize, Size(20, 20), RESIZE_BUTTON);
  }

  method NewCloseButton(app: App, w: Widget) returns (quit: Widget)
    requires app.Valid() && w in app.all && |app.kids[w]| == 1
    modifies app`widId, app`all, app`kids, app.all`childrenHead, app.all`childrenTail, app.all`nextSibling
    ensures app.Valid() && fresh(quit) && app.all == old(app.all) + {quit} && quit.parent == w
    ensures New(old(ListsOf(app)), quit) && ListsOf(app) == Created(old(ListsOf(app)), w, quit) && app.kids[quit] == []
    ensures quit.noClipping && !quit.isResizeButton && quit.Unplaced() && quit.wclass == ButtonClass
  {
    hide App.Node, Created, FindsResize;
    FewFindResize(ListsOf(app), w);
    quit := CreateChild(app, ButtonClass, w);
    quit.noClipping := true;
  }

  method NewResizeButton(app: App, w: Widget) returns (resize: Widget)
    requires app.Valid() && w in app.all && app.kids[w] == []
    modifies app`widId, app`all, app`kids, app.all`childrenHead, app.all`childrenTail, app.all`nextSibling
    ensures app.Valid() && fresh(resize) && app.all == old(app.all) + {resize} && resize.parent == w
    ensures var c := Created(old(ListsOf(app)), w, resize); ListsOf(app) == c.(resizes := c.resizes + {resize})
    ensures New(old(ListsOf(app)), resize) && app.kids[w] == [resize] && app.kids[resize] == []
    ensures resize.isResizeButton && !resize.noClipping && resize.Unplaced() && resize.wclass == ButtonClass
  {
    hide App.Node, Created, FindsResize;
    FewFindResize(ListsOf(app), w);
    resize := CreateChild(app, ButtonClass, w);
    OnlyChild(old(ListsOf(app)), w, resize);
    SetResizeButton(app, resize);
  }

  /** From an empty list, creating a toplevel lists a strip in the corner of the window. */
  lemma CreationLists(window: Size)
    requires window.width >= 12 && window.height >= 2
    ensures ListedByCreation([], window) == [Rect(Point(0, 0), Size(12, 2))]
  {
    var corner := Rect(Point(0, 0), Size(2, 2));
    assert Invalidated([], Extended(NOWHERE), window) == [corner];
    MergedInto(corner, Content(ButtonClass, 4, ResizePlace(NOWHERE)), window, corner);
    MergedInto(corner, Extended(NOWHERE), window, corner);
    MergedInto(corner, Content(ButtonClass, 4, QuitPlace(NOWHERE)), window, Rect(Point(0, 0), Size(12, 2)));
  }

  lemma MergedInto(last: Rect, r: Rect, window: Size, both: Rect)
    requires Merges(last, Clipped(r, window)) && Around(last, Clipped(r, window)) == both
    ensures Invalidated([last], r, window) == [both]
  {
    hide Merges, Around;
    assert [last][..0] == [];
  }

  /** A button that has been placed while its toplevel was nowhere is ready for the place the toplevel
      gets exactly when its content lies in the window there. */
  lemma ButtonIsReady(t: Tree, now: Rect, params: PlacerParams, size: Size, content: Rect, window: Size)
    requires PlacedAs(t.geo, now, params, size, window) && t.kids == []
    requires Placed(params, size, content) != now || !Within(Content(ButtonClass, 4, now), window)
    ensures ReadyFor(t, content, window) <==> Within(Content(ButtonClass, 4, Placed(params, size, content)), window)
  {
    hide Placed;
    ClippedExactly(Content(ButtonClass, 4, now), window);
  }

  /** Opening a toplevel: placed for the first time, with the buttons it was created with and any other
      children in between, it is ready exactly when both buttons get their content into the window
      and the other children are ready. */
  lemma OpeningIsReady(t: Tree, parent: Rect, window: Size)
    requires t.geo.wclass == ToplevelClass && t.geo.mapped && t.geo.Place(parent) != t.geo.screen && |t.kids| >= 2
    requires t.kids[0].kids == [] && PlacedAs(t.kids[0].geo, QuitPlace(NOWHERE), QUIT_PARAMS, Size(10, 10), window)
    requires var last := t.kids[|t.kids| - 1];
             last.kids == [] && PlacedAs(last.geo, ResizePlace(NOWHERE), RESIZE_PARAMS, Size(20, 20), window)
    ensures var content := Content(ToplevelClass, t.geo.border, t.geo.Place(parent));
            ReadyFor(t, parent, window) <==>
              && Within(Content(ButtonClass, 4, QuitPlace(content)), window)
              && Within(Content(ButtonClass, 4, ResizePlace(content)), window)
              && forall i | 0 < i < |t.kids| - 1 :: ReadyFor(t.kids[i], content, window)
  {
    hide Placed, ReadyFor, PlacedAs, WithArguments;
    var content := Content(ToplevelClass, t.geo.border, t.geo.Place(parent));
    var last := |t.kids| - 1;
    ButtonPlaces(content, t.geo.params);
    ButtonIsReady(t.kids[0], QuitPlace(NOWHERE), QUIT_PARAMS, Size(10, 10), content, window);
    ButtonIsReady(t.kids[last], ResizePlace(NOWHERE), RESIZE_PARAMS, Size(20, 20), content, window);
    ReadyParts(t, parent, window);
  }

  lemma ReadyParts(t: Tree, parent: Rect, window: Size)
    requires t.geo.wclass == ToplevelClass && t.geo.mapped && t.geo.Place(parent) != t.geo.screen
    ensures ReadyFor(t, parent, window) <==>
              forall i | 0 <= i < |t.kids| ::
                ReadyFor(t.kids[i], Content(ToplevelClass, t.geo.border, t.geo.Place(parent)), window)
  {
    hide Placed;
    assert t.geo.FittedAt(t.geo.Place(parent)).Content() == Content(ToplevelClass, t.geo.border, t.geo.Place(parent));
  }
}
