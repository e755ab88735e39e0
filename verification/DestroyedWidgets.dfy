/** Which destroys are repainted completely: the places listed when a widget is destroyed, compared with
    what it and its children have painted. */
module DestroyedWidgets {
  import opened Geometry
  import opened Pixels
  import opened WidgetTree
  import opened Invalidation
  import opened Placement
  import opened Layout
  import opened Repainting
  import opened MovedWidgets

  /** Freeing a widget lists its place if it is managed. */
  function ListedByFreeing(g: Geo, window: Size, list: seq<Rect>): seq<Rect> {
    if g.mapped then Invalidated(list, g.screen, window) else list
  }

  /** Freeing siblings in order, each after everything below it. */
  function ListedByFreeingAll(ts: seq<Tree>, window: Size, list: seq<Rect>): seq<Rect> {
    if ts == [] then list
    else ListedByFreeingAll(ts[1..], window, ListedByFreeing(ts[0].geo, window, ListedByFreeingAll(ts[0].kids, window, list)))
  }

  /** The list after a widget has been destroyed: its place, those of the managed widgets below it, and, if
      it is managed, its own place again. */
  function ListedByDestroyingTree(t: Tree, window: Size, list: seq<Rect>): seq<Rect> {
    ListedByFreeing(t.geo, window, ListedByFreeingAll(t.kids, window, Invalidated(list, t.geo.screen, window)))
  }

  lemma FreeingKeeps(g: Geo, window: Size, list: seq<Rect>)
    requires AllWithin(list, window)
    ensures AllWithin(ListedByFreeing(g, window, list), window)
    ensures forall p | WindowRect(window).Contains(p) && Covers(list, p) :: Covers(ListedByFreeing(g, window, list), p)
  {
    hide Covers, AllWithin, Invalidated;
    InvalidatedWithin(list, g.screen, window);
    forall p | WindowRect(window).Contains(p) && Covers(list, p)
      ensures Covers(ListedByFreeing(g, window, list), p)
    {
      InvalidatedCovers(list, g.screen, window, p);
    }
  }

  /** What was listed stays listed while widgets are freed, and within the window. */
  lemma {:induction false} FreeingAllKeeps(ts: seq<Tree>, window: Size, list: seq<Rect>)
    requires AllWithin(list, window)
    ensures AllWithin(ListedByFreeingAll(ts, window, list), window)
    ensures forall p | WindowRect(window).Contains(p) && Covers(list, p) :: Covers(ListedByFreeingAll(ts, window, list), p)
  {
    hide Covers, AllWithin, ListedByFreeing;
    if ts != [] {
      FreeingAllKeeps(ts[0].kids, window, list);
      var below := ListedByFreeingAll(ts[0].kids, window, list);
      FreeingKeeps(ts[0].geo, window, below);
      FreeingAllKeeps(ts[1..], window, ListedByFreeing(ts[0].geo, window, below));
    }
  }

  /** A managed widget of the forest has the pixel in its place. */
  predicate PlacedOver(ts: seq<Tree>, p: Point) {
    exists i | 0 <= i < |ts| :: (ts[i].geo.mapped && ts[i].geo.screen.Contains(p)) || PlacedOver(ts[i].kids, p)
  }

  /** The place of every managed widget that is freed is listed. */
  lemma {:induction false} FreeingLists(ts: seq<Tree>, window: Size, list: seq<Rect>, p: Point)
    requires AllWithin(list, window) && WindowRect(window).Contains(p) && PlacedOver(ts, p)
    ensures Covers(ListedByFreeingAll(ts, window, list), p)
  {
    hide Covers, AllWithin, Invalidated;
    var first, rest := ts[0], ts[1..];
    FreeingAllKeeps(first.kids, window, list);
    var below := ListedByFreeingAll(first.kids, window, list);
    FreeingKeeps(first.geo, window, below);
    FreeingAllKeeps(rest, window, ListedByFreeing(first.geo, window, below));
    if PlacedOver(rest, p) {
      FreeingLists(rest, window, ListedByFreeing(first.geo, window, below), p);
    } else {
      assert forall i | 0 < i < |ts| :: ts[i] == rest[i - 1];
      if PlacedOver(first.kids, p) {
        FreeingLists(first.kids, window, list, p);
      } else {
        InvalidatedCovers(below, first.geo.screen, window, p);
      }
    }
  }

  /** Destroying lists the place of the widget and of every managed widget below it, and keeps what was listed. */
  lemma DestroyingLists(t: Tree, window: Size, list: seq<Rect>)
    requires AllWithin(list, window)
    ensures AllWithin(ListedByDestroyingTree(t, window, list), window)
    ensures forall p | WindowRect(window).Contains(p)
                       && (Covers(list, p) || t.geo.screen.Contains(p) || PlacedOver(t.kids, p)) ::
              Covers(ListedByDestroyingTree(t, window, list), p)
  {
    hide Covers, AllWithin, Invalidated, ListedByFreeing, ListedByFreeingAll, PlacedOver;
    var first := Invalidated(list, t.geo.screen, window);
    InvalidatedWithin(list, t.geo.screen, window);
    forall p | WindowRect(window).Contains(p) && (Covers(list, p) || t.geo.screen.Contains(p))
      ensures Covers(first, p)
    {
      InvalidatedCovers(list, t.geo.screen, window, p);
    }
    FreeingAllKeeps(t.kids, window, first);
    forall p | WindowRect(window).Contains(p) && PlacedOver(t.kids, p)
      ensures Covers(ListedByFreeingAll(t.kids, window, first), p)
    {
      FreeingLists(t.kids, window, first, p);
    }
    FreeingKeeps(t.geo, window, ListedByFreeingAll(t.kids, window, first));
  }

  /** Every pixel of the window that the widget or something below it may have painted is listed. */
  ghost predicate AllListedByDestroying(t: Tree, window: Size, list: seq<Rect>) {
    forall p | WindowRect(window).Contains(p) && !Misses(t.geo, p) :: Covers(ListedByDestroyingTree(t, window, list), p)
  }

  /** Destroying a frame or a button whose polygon and content keep within its screen location lists all
      it has painted. */
  lemma FramesAreListedByDestroying(t: Tree, window: Size, list: seq<Rect>)
    requires t.geo.wclass != ToplevelClass && AllWithin(list, window)
    requires forall p | p in Outline(t.geo) || t.geo.Content().Contains(p) :: t.geo.screen.Contains(p)
    ensures AllListedByDestroying(t, window, list)
  {
    hide ListedByDestroyingTree, Covers, AllWithin;
    DestroyingLists(t, window, list);
  }

  // ----- toplevels -----

  /** A toplevel on screen, with its content inside its frame. */
  predicate OnScreen(g: Geo) {
    g.wclass == ToplevelClass && g.mapped && g.Fits() && g.border >= 0
  }

  /** Destroying a toplevel without children, from an empty list, lists all it has painted exactly when the
      part of its frame in the window keeps within its screen location. */
  lemma LoneToplevelsByDestroyingExactly(t: Tree, window: Size)
    requires OnScreen(t.geo) && t.kids == []
    ensures AllListedByDestroying(t, window, []) <==>
              Inside(Clipped(t.geo.frame, window), Clipped(t.geo.screen, window))
  {
    hide Covers, Inside, Intersection;
    var c := Clipped(t.geo.screen, window);
    IntersectionIsExact(t.geo.frame, WindowRect(window));
    InsideExactly(Clipped(t.geo.frame, window), c);
    ListedTwice(t, window);
    assert forall p :: Misses(t.geo, p) <==> !t.geo.frame.Contains(p);
    forall p: Point
      ensures Covers([c], p) <==> c.Contains(p)
      ensures Covers([c, c], p) <==> c.Contains(p)
    {
      CoversOne(c, p);
      CoversTwo(c, c, p);
    }
  }

  /** Destroying a widget without children, from an empty list, lists its place once or twice. */
  lemma ListedTwice(t: Tree, window: Size)
    requires t.geo.mapped && t.kids == []
    ensures var c := Clipped(t.geo.screen, window);
            ListedByDestroyingTree(t, window, []) == if Merges(c, c) then [c] else [c, c]
  {
    hide Merges;
    var c := Clipped(t.geo.screen, window);
    assert [c][..0] == [] && Around(c, c) == c;
  }

  /** With any children and any list, destroying a toplevel lists all it has painted if the part of its
      frame in the window keeps within its screen location, or if the frame has been invalidated
      before, as the close button sees to. */
  lemma ToplevelsByDestroyingIf(t: Tree, window: Size, list: seq<Rect>)
    requires OnScreen(t.geo) && AllWithin(list, window)
    ensures Inside(Clipped(t.geo.frame, window), t.geo.screen) ==> AllListedByDestroying(t, window, list)
    ensures AllListedByDestroying(t, window, Invalidated(list, t.geo.frame, window))
  {
    hide ListedByDestroyingTree, Covers, AllWithin, Invalidated, Inside, Intersection;
    assert forall p :: Misses(t.geo, p) <==> !t.geo.frame.Contains(p);
    IntersectionIsExact(t.geo.frame, WindowRect(window));
    InsideExactly(Clipped(t.geo.frame, window), t.geo.screen);
    DestroyingLists(t, window, list);
    InvalidatedWithin(list, t.geo.frame, window);
    DestroyingLists(t, window, Invalidated(list, t.geo.frame, window));
    forall p | WindowRect(window).Contains(p) && t.geo.frame.Contains(p)
      ensures Covers(Invalidated(list, t.geo.frame, window), p)
    {
      InvalidatedCovers(list, t.geo.frame, window, p);
    }
  }

  /** The tree of a root without children. */
  function RootAlone(root: Geo): Tree {
    Tree(root, [])
  }

  lemma DrawnRootAlone(ch: Channels, root: Geo, window: Size, p: Point)
    requires ch.Valid() && WindowRect(window).Contains(p) && p in Outline(root)
    ensures DrawnTree(ch, RootAlone(root), window, p) == MapRgba(ch, root.color)
  {
    hide MapRgba, Outline;
  }

  /** For a toplevel on the root, with any children and after any invalidations, the surface is right
      wherever nothing is listed exactly when all that the destroyed toplevel has painted is listed. */
  lemma DestroysShowExactly(ch: Channels, root: Geo, t: Tree, window: Size, list: seq<Rect>)
    requires ch.Valid() && OnScreen(t.geo) && CoversWindow(root, window) && Lacks(ch, t, MapRgba(ch, root.color))
    ensures AllListedByDestroying(t, window, list) <==>
              RightUnlisted(ch, RootWith(root, t), RootAlone(root), window, ListedByDestroyingTree(t, window, list))
  {
    hide ListedByDestroyingTree, Covers, MapRgba, DrawnTree, RootWith, RootAlone, Lacks;
    forall p | WindowRect(window).Contains(p)
      ensures DrawnTree(ch, RootAlone(root), window, p) == MapRgba(ch, root.color)
      ensures DrawnTree(ch, RootWith(root, t), window, p) == MapRgba(ch, root.color) <==> Misses(t.geo, p)
    {
      DrawnRootAlone(ch, root, window, p);
      if Misses(t.geo, p) {
        ShowsRoot(ch, root, t, window, p);
      } else {
        HidesRoot(ch, root, t, window, p);
      }
    }
  }

  /** No managed widget of the forest has its place reach below the height `y`. */
  predicate PlacesAbove(ts: seq<Tree>, y: int) {
    forall i | 0 <= i < |ts| :: (ts[i].geo.mapped ==> ts[i].geo.screen.Bottom() <= y) && PlacesAbove(ts[i].kids, y)
  }

  lemma {:induction false} FreeingAbove(ts: seq<Tree>, window: Size, list: seq<Rect>, y: int)
    requires AllAbove(list, y) && PlacesAbove(ts, y)
    ensures AllAbove(ListedByFreeingAll(ts, window, list), y)
  {
    hide AllAbove, Invalidated;
    if ts != [] {
      FreeingAbove(ts[0].kids, window, list, y);
      var below := ListedByFreeingAll(ts[0].kids, window, list);
      FreeingOneAbove(ts[0].geo, below, window, y);
      FreeingAbove(ts[1..], window, ListedByFreeing(ts[0].geo, window, below), y);
    }
  }

  lemma FreeingOneAbove(g: Geo, list: seq<Rect>, window: Size, y: int)
    requires AllAbove(list, y) && (g.mapped ==> g.screen.Bottom() <= y)
    ensures AllAbove(ListedByFreeing(g, window, list), y)
  {
    hide AllAbove, Invalidated;
    if g.mapped {
      InvalidatedAbove(list, g.screen, window, y);
    }
  }

  /** Destroying a toplevel leaves a pixel of its frame wrong, if neither its own place, nor that of a managed
      widget below it, nor what was listed before, reaches down to that row: the pixel is not listed,
      and shows something else than the root. */
  lemma ToplevelDestroyed(ch: Channels, root: Geo, t: Tree, window: Size, list: seq<Rect>, p: Point)
    requires ch.Valid() && OnScreen(t.geo) && p in Outline(root) && Lacks(ch, t, MapRgba(ch, root.color))
    requires t.geo.frame.Contains(p) && WindowRect(window).Contains(p) && t.geo.screen.Bottom() <= p.y
    requires PlacesAbove(t.kids, p.y) && AllAbove(list, p.y)
    ensures !Covers(ListedByDestroyingTree(t, window, list), p)
    ensures DrawnTree(ch, RootWith(root, t), window, p) != MapRgba(ch, root.color)
    ensures DrawnTree(ch, RootAlone(root), window, p) == MapRgba(ch, root.color)
  {
    hide MapRgba, DrawnTree, RootWith, RootAlone, Lacks, Invalidated, ListedByFreeing, ListedByFreeingAll, PlacesAbove;
    var first := Invalidated(list, t.geo.screen, window);
    InvalidatedAbove(list, t.geo.screen, window, p.y);
    FreeingAbove(t.kids, window, first, p.y);
    FreeingOneAbove(t.geo, ListedByFreeingAll(t.kids, window, first), window, p.y);
    DrawnRootAlone(ch, root, window, p);
    HidesRoot(ch, root, t, window, p);
  }

  /** The toplevel of a game of 4 by 4 tiles of 100 pixels, placed at (20, 20). */
  ghost function GameToplevel(kids: seq<Tree>): Tree {
    var screen := Rect(Point(20, 20), Size(440, 440));
    Tree(Geo(ToplevelClass, Color(1, 0, 0, 255), r => {}, true, PlacerParams(NorthWest, 20, 20, 440, 440, 0.0, 0.0, 0.0, 0.0),
             Size(440, 440), 0, screen, OwnContent(ToplevelClass, 0, screen), FrameRect(0, screen)), kids)
  }

  /** Its last tiles end at 482, and its frame at 490: destroying it leaves eight rows of its frame on the
      screen. */
  lemma GameDestroyed(ch: Channels, kids: seq<Tree>, window: Size, x: int, y: int)
    requires ch.Valid() && window.width >= 460 && window.height >= 490 && 20 <= x < 460 && 482 <= y < 490
    requires PlacesAbove(kids, 482) && forall i | 0 <= i < |kids| :: Lacks(ch, kids[i], MapRgba(ch, Color(0, 0, 0, 255)))
    ensures var root := ExampleRoot().(screen := WindowRect(window));
            && !Covers(ListedByDestroyingTree(GameToplevel(kids), window, []), Point(x, y))
            && DrawnTree(ch, RootWith(root, GameToplevel(kids)), window, Point(x, y))
               != DrawnTree(ch, RootAlone(root), window, Point(x, y))
  {
    hide MapRgba, ListedByDestroyingTree, Covers, DrawnTree, RootWith, RootAlone;
    var root := ExampleRoot().(screen := WindowRect(window));
    MapInjective(ch, Color(1, 0, 0, 255), Color(0, 0, 0, 255));
    HigherPlaces(kids, 482, y);
    ToplevelDestroyed(ch, root, GameToplevel(kids), window, [], Point(x, y));
  }

  lemma {:induction false} HigherPlaces(ts: seq<Tree>, y: int, z: int)
    requires PlacesAbove(ts, y) && y <= z
    ensures PlacesAbove(ts, z)
  {
    forall i | 0 <= i < |ts|
      ensures PlacesAbove(ts[i].kids, z)
    {
      HigherPlaces(ts[i].kids, y, z);
    }
  }
}
