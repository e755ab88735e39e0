/** Which placements are repainted completely: the areas listed when a frame, a toplevel or a button
    moves, compared with what it painted before and paints afterwards. */
module MovedWidgets {
  import opened Geometry
  import opened Pixels
  import opened Surfaces
  import opened Picture
  import opened WidgetTree
  import opened Invalidation
  import opened Placement
  import opened Layout
  import opened Placer
  import opened Repainting

  /** The widget's polygon keeps within the place it is drawn for. */
  ghost predicate ShapeWithin(g: Geo) {
    forall r, q | q in g.shape(r) :: r.Contains(q)
  }

  predicate MovesTo(t: Tree, a: Placing, parent: Rect, place: Rect) {
    place == Managed(t, a).geo.Place(parent) != t.geo.screen
  }

  /** What a placement touches is listed. */
  lemma TouchedIsListed(t: Tree, a: Placing, parent: Rect, window: Size, rects: seq<Rect>, place: Rect)
    requires MovesTo(t, a, parent, place)
    ensures forall p | WindowRect(window).Contains(p)
                       && (Extended(t.geo.screen).Contains(p) || Managed(t, a).geo.NotifiedAt(place).Area().Contains(p)) ::
              Covers(Listed(Managed(t, a), parent, window, rects), p)
  {
    hide Placed, WithArguments, Listed, Covers;
    forall p | WindowRect(window).Contains(p)
               && (Extended(t.geo.screen).Contains(p) || Managed(t, a).geo.NotifiedAt(place).Area().Contains(p))
      ensures Covers(Listed(Managed(t, a), parent, window, rects), p)
    {
      assert Touched(Managed(t, a), parent, p);
      MovesAreListed(Managed(t, a), parent, window, rects, p);
    }
  }

  /** Placing a frame lists all it repaints, if its polygon and its content keep within its screen
      location, unless it appears where it is. */
  lemma FramesAreListed(t: Tree, a: Placing, parent: Rect, window: Size, rects: seq<Rect>)
    requires t.geo.wclass == FrameClass && t.geo.border >= 0 && t.geo.Bordered() && t.geo.Fits() && ShapeWithin(t.geo)
    requires t.geo.mapped || Managed(t, a).geo.Place(parent) != t.geo.screen
    ensures AllListed(t, a, parent, window, rects)
  {
    hide Placed, WithArguments, Listed, Covers;
    var place := Managed(t, a).geo.Place(parent);
    if place != t.geo.screen {
      TouchedIsListed(t, a, parent, window, rects, place);
      var n := Managed(t, a).geo.NotifiedAt(place);
      IntersectionIsExact(place, WindowRect(window));
      assert forall p :: !Misses(t.geo, p) ==> Extended(t.geo.screen).Contains(p);
      assert forall p | WindowRect(window).Contains(p) :: !Misses(n.ClippedTo(window), p) ==> n.Area().Contains(p);
    }
  }

  // ----- toplevels -----

  /** A toplevel that moves is repainted completely exactly when its whole old frame is listed. */
  lemma ToplevelsExactly(t: Tree, a: Placing, parent: Rect, window: Size, rects: seq<Rect>, place: Rect)
    requires t.geo.wclass == ToplevelClass && t.geo.mapped && t.geo.Fits() && t.geo.border >= 0
    requires MovesTo(t, a, parent, place)
    ensures AllListed(t, a, parent, window, rects) <==>
              forall p | WindowRect(window).Contains(p) && t.geo.frame.Contains(p) ::
                Covers(Listed(Managed(t, a), parent, window, rects), p)
  {
    hide Placed, WithArguments, Listed, Covers;
    TouchedIsListed(t, a, parent, window, rects, place);
    var n := Managed(t, a).geo.NotifiedAt(place);
    assert forall p :: !Misses(t.geo, p) <==> t.geo.frame.Contains(p);
    assert forall p :: !Misses(n.ClippedTo(window), p) ==> n.Area().Contains(p);
    assert forall p :: Repaints(t, a, parent, window, p) <==> t.geo.frame.Contains(p) || !Misses(n.ClippedTo(window), p);
  }

  /** A toplevel that appears, and moves in doing so, is repainted completely, whatever its children and
      whatever was listed. */
  lemma ToplevelsAppear(t: Tree, a: Placing, parent: Rect, window: Size, rects: seq<Rect>, place: Rect)
    requires t.geo.wclass == ToplevelClass && !t.geo.mapped && t.geo.border >= 0
    requires MovesTo(t, a, parent, place)
    ensures AllListed(t, a, parent, window, rects)
  {
    hide Placed, WithArguments, Listed, Covers;
    TouchedIsListed(t, a, parent, window, rects, place);
    var n := Managed(t, a).geo.NotifiedAt(place);
    assert forall p :: !Misses(n.ClippedTo(window), p) ==> n.Area().Contains(p);
  }

  /** The parts of the frame that the listed old place leaves out: beyond its right and its bottom edge. */
  function RightStrip(g: Geo): Rect {
    var left := Max(g.frame.Left(), g.screen.Right() + 2);
    Rect(Point(left, g.frame.Top()), Size(g.frame.Right() - left, g.frame.size.height))
  }

  function BottomStrip(g: Geo): Rect {
    var top := Max(g.frame.Top(), g.screen.Bottom() + 2);
    Rect(Point(g.frame.Left(), top), Size(g.frame.size.width, g.frame.Bottom() - top))
  }

  lemma StripsExactly(g: Geo, p: Point)
    requires g.mapped && g.wclass == ToplevelClass && g.Fits() && g.border >= 0
    ensures g.frame.Contains(p) && !Extended(g.screen).Contains(p)
            <==> RightStrip(g).Contains(p) || BottomStrip(g).Contains(p)
  {
  }

  /** If the new frame, as it is listed, takes in what the listed old place leaves out, a toplevel with
      any children is repainted completely, after any earlier invalidations. */
  lemma ToplevelsListedIf(t: Tree, a: Placing, parent: Rect, window: Size, rects: seq<Rect>, place: Rect)
    requires t.geo.wclass == ToplevelClass && t.geo.mapped && t.geo.Fits() && t.geo.border >= 0
    requires MovesTo(t, a, parent, place)
    requires var area := Extended(FrameRect(t.geo.border, place));
             Inside(Clipped(RightStrip(t.geo), window), area) && Inside(Clipped(BottomStrip(t.geo), window), area)
    ensures AllListed(t, a, parent, window, rects)
  {
    hide Placed, WithArguments, Listed, Covers, Inside, Extended, FrameRect, Intersection;
    var area := Extended(FrameRect(t.geo.border, place));
    ToplevelsExactly(t, a, parent, window, rects, place);
    TouchedIsListed(t, a, parent, window, rects, place);
    InsideExactly(Clipped(RightStrip(t.geo), window), area);
    InsideExactly(Clipped(BottomStrip(t.geo), window), area);
    IntersectionIsExact(RightStrip(t.geo), WindowRect(window));
    IntersectionIsExact(BottomStrip(t.geo), WindowRect(window));
    assert Managed(t, a).geo.NotifiedAt(place).Area() == area;
    forall p | WindowRect(window).Contains(p) && t.geo.frame.Contains(p)
      ensures Covers(Listed(Managed(t, a), parent, window, rects), p)
    {
      StripsExactly(t.geo, p);
    }
  }

  /** What moving a widget without children lists, when nothing was listed before. */
  function ListedOld(t: Tree, window: Size): Rect {
    Clipped(Extended(t.geo.screen), window)
  }

  function ListedNew(t: Tree, a: Placing, place: Rect, window: Size): Rect {
    Clipped(Managed(t, a).geo.NotifiedAt(place).Area(), window)
  }

  lemma ListedAlone(t: Tree, a: Placing, parent: Rect, window: Size, place: Rect)
    requires t.kids == [] && MovesTo(t, a, parent, place)
    ensures var was, now := ListedOld(t, window), ListedNew(t, a, place, window);
            Listed(Managed(t, a), parent, window, []) == if Merges(was, now) then [Around(was, now)] else [was, now]
  {
    hide Placed, WithArguments, Merges, Around;
    var was := ListedOld(t, window);
    assert [was][..0] == [];
  }

  lemma CoversOne(r: Rect, p: Point)
    ensures Covers([r], p) <==> r.Contains(p)
  {
    assert [r][0] == r;
  }

  lemma CoversTwo(r: Rect, s: Rect, p: Point)
    ensures Covers([r, s], p) <==> r.Contains(p) || s.Contains(p)
  {
    assert [r, s][0] == r && [r, s][1] == s;
  }

  /** Exactly when moving a toplevel without children, from an empty list, is repainted completely: its
      old frame lies in the merged rectangle, or, if the old place and the new frame are listed
      apart, the new frame takes in what the old place leaves out. */
  lemma LoneToplevelsExactly(t: Tree, a: Placing, parent: Rect, window: Size, place: Rect)
    requires t.geo.wclass == ToplevelClass && t.geo.mapped && t.geo.Fits() && t.geo.border >= 0 && t.kids == []
    requires MovesTo(t, a, parent, place)
    ensures var was, now := ListedOld(t, window), ListedNew(t, a, place, window);
            AllListed(t, a, parent, window, []) <==>
              if Merges(was, now) then Inside(Clipped(t.geo.frame, window), Around(was, now))
              else Inside(Clipped(RightStrip(t.geo), window), now) && Inside(Clipped(BottomStrip(t.geo), window), now)
  {
    hide Placed, WithArguments, Listed, Covers, Inside, Extended, FrameRect, Intersection, Merges, Around, AllListed, ListedNew;
    var was, now := ListedOld(t, window), ListedNew(t, a, place, window);
    ToplevelsExactly(t, a, parent, window, [], place);
    ListedAlone(t, a, parent, window, place);
    IntersectionIsExact(t.geo.frame, WindowRect(window));
    IntersectionIsExact(Extended(t.geo.screen), WindowRect(window));
    IntersectionIsExact(RightStrip(t.geo), WindowRect(window));
    IntersectionIsExact(BottomStrip(t.geo), WindowRect(window));
    InsideExactly(Clipped(t.geo.frame, window), Around(was, now));
    InsideExactly(Clipped(RightStrip(t.geo), window), now);
    InsideExactly(Clipped(BottomStrip(t.geo), window), now);
    forall p: Point
      ensures Covers([Around(was, now)], p) <==> Around(was, now).Contains(p)
      ensures Covers([was, now], p) <==> was.Contains(p) || now.Contains(p)
      ensures t.geo.frame.Contains(p) && !Extended(t.geo.screen).Contains(p)
              <==> RightStrip(t.geo).Contains(p) || BottomStrip(t.geo).Contains(p)
    {
      CoversOne(Around(was, now), p);
      CoversTwo(was, now, p);
      StripsExactly(t.geo, p);
    }
  }

  // ----- what shows on a root with one child -----

  /** The tree of a root with one child. */
  function RootWith(root: Geo, t: Tree): Tree {
    Tree(root, [t])
  }

  /** The whole window belongs to the root. */
  ghost predicate CoversWindow(root: Geo, window: Size) {
    forall p | WindowRect(window).Contains(p) :: p in Outline(root)
  }

  /** No widget of the tree leaves the value `ink`. */
  ghost predicate Lacks(ch: Channels, t: Tree, ink: nat)
    requires ch.Valid()
  {
    MapRgba(ch, t.geo.color) != ink && forall i | 0 <= i < |t.kids| :: Lacks(ch, t.kids[i], ink)
  }

  lemma {:induction false} NotPainted(ch: Channels, ts: seq<Tree>, clip: Rect, p: Point, under: nat, ink: nat)
    requires ch.Valid() && under != ink && forall i | 0 <= i < |ts| :: Lacks(ch, ts[i], ink)
    ensures PaintedIn(ForestOf(ch, ts), clip, p, under) != ink && Painted(ForestOf(ch, ts), clip, p, under) != ink
  {
    hide MapRgba, Outline, Intersection;
    if ts != [] {
      var w := InfoFrom(ch, ts[0].geo);
      var on := if clip.Contains(p) && p in w.outline then w.ink else under;
      NotPainted(ch, ts[0].kids, Intersection(clip, w.content), p, on, ink);
      NotPainted(ch, ts[1..], clip, p, OneSubtree(ch, ts[0], clip, p, under), ink);
    }
  }

  lemma DrawnRootWith(ch: Channels, root: Geo, t: Tree, window: Size, p: Point)
    requires ch.Valid() && WindowRect(window).Contains(p) && p in Outline(root)
    ensures var under := MapRgba(ch, root.color);
            DrawnTree(ch, RootWith(root, t), window, p) == OneSubtree(ch, t, WindowRect(window), p, under)
  {
    hide MapRgba, Outline, OneSubtree;
    PaintedOne(ch, t, WindowRect(window), p, MapRgba(ch, root.color));
    assert RootWith(root, t).kids == [t];
  }

  /** Where nothing below a child paints, the child itself shows. */
  lemma ShowsChild(ch: Channels, root: Geo, t: Tree, window: Size, p: Point)
    requires ch.Valid() && WindowRect(window).Contains(p) && p in Outline(root)
    requires t.geo.mapped && p in Outline(t.geo) && (t.kids == [] || !t.geo.Content().Contains(p))
    ensures DrawnTree(ch, RootWith(root, t), window, p) == MapRgba(ch, t.geo.color)
  {
    hide MapRgba, DrawnTree, Outline, Intersection;
    DrawnRootWith(ch, root, t, window, p);
    IntersectionIsExact(WindowRect(window), t.geo.Content());
    ForestIsClipped(ch, t.kids);
    if t.kids != [] {
      PaintedOutside(ForestOf(ch, t.kids), Intersection(WindowRect(window), t.geo.Content()), p, MapRgba(ch, t.geo.color));
    }
  }

  /** Where a child does not paint, its root shows. */
  lemma ShowsRoot(ch: Channels, root: Geo, t: Tree, window: Size, p: Point)
    requires ch.Valid() && WindowRect(window).Contains(p) && p in Outline(root) && Misses(t.geo, p)
    ensures DrawnTree(ch, RootWith(root, t), window, p) == MapRgba(ch, root.color)
  {
    hide MapRgba, DrawnTree, OneSubtree, Misses;
    DrawnRootWith(ch, root, t, window, p);
    MissedIsUnpainted(ch, t, WindowRect(window), p, MapRgba(ch, root.color));
  }

  /** Where it does, something else shows, if nothing in its tree has the value of the root. */
  lemma HidesRoot(ch: Channels, root: Geo, t: Tree, window: Size, p: Point)
    requires ch.Valid() && WindowRect(window).Contains(p) && p in Outline(root)
    requires t.geo.mapped && p in Outline(t.geo) && Lacks(ch, t, MapRgba(ch, root.color))
    ensures DrawnTree(ch, RootWith(root, t), window, p) != MapRgba(ch, root.color)
  {
    hide MapRgba, DrawnTree, Outline, Intersection, PaintedIn;
    DrawnRootWith(ch, root, t, window, p);
    NotPainted(ch, t.kids, Intersection(WindowRect(window), t.geo.Content()), p, MapRgba(ch, t.geo.color),
               MapRgba(ch, root.color));
  }

  /** The pick surface shows at every pixel of the window that is not listed what it ought to. */
  ghost predicate RightUnlisted(ch: Channels, before: Tree, after: Tree, window: Size, list: seq<Rect>)
    requires ch.Valid()
  {
    forall p | WindowRect(window).Contains(p) && !Covers(list, p) ::
      DrawnTree(ch, before, window, p) == DrawnTree(ch, after, window, p)
  }

  /** For a toplevel on the root, with any children and after any invalidations, the surface is right
      wherever nothing is listed exactly when all that the move repaints is listed. */
  lemma ToplevelsShowExactly(ch: Channels, root: Geo, t: Tree, a: Placing, parent: Rect, window: Size, rects: seq<Rect>,
                             place: Rect)
    requires ch.Valid() && t.geo.wclass == ToplevelClass && t.geo.mapped && t.geo.Fits() && t.geo.border >= 0
    requires MovesTo(t, a, parent, place)
    requires CoversWindow(root, window) && Lacks(ch, t, MapRgba(ch, root.color))
    ensures var m := Managed(t, a);
            AllListed(t, a, parent, window, rects) <==>
              RightUnlisted(ch, RootWith(root, t), RootWith(root, Layout.Run(m, parent, window)), window,
                            Listed(m, parent, window, rects))
  {
    hide Placed, WithArguments, Listed, Covers, MapRgba, DrawnTree, RootWith, Lacks, AllListed;
    var m := Managed(t, a);
    var r, list := Layout.Run(m, parent, window), Listed(m, parent, window, rects);
    TouchedIsListed(t, a, parent, window, rects, place);
    ToplevelsExactly(t, a, parent, window, rects, place);
    forall p | WindowRect(window).Contains(p) && !Covers(list, p)
      ensures DrawnTree(ch, RootWith(root, r), window, p) == MapRgba(ch, root.color)
      ensures DrawnTree(ch, RootWith(root, t), window, p) == MapRgba(ch, root.color) <==> !t.geo.frame.Contains(p)
    {
      assert !m.geo.NotifiedAt(place).Area().Contains(p);
      assert Misses(r.geo, p);
      ShowsRoot(ch, root, r, window, p);
      if t.geo.frame.Contains(p) {
        HidesRoot(ch, root, t, window, p);
      } else {
        ShowsRoot(ch, root, t, window, p);
      }
    }
  }

  /** Nothing that moving the tree lists reaches below the height `y`. */
  predicate ListsAbove(t: Tree, parent: Rect, y: int) {
    var place := t.geo.Place(parent);
    t.geo.mapped && place != t.geo.screen ==>
      var g := t.geo.NotifiedAt(place);
      Extended(t.geo.screen).Bottom() <= y && g.Area().Bottom() <= y
      && forall i | 0 <= i < |t.kids| :: ListsAbove(t.kids[i], g.Content(), y)
  }

  predicate AllAbove(list: seq<Rect>, y: int) {
    forall k | 0 <= k < |list| :: list[k].Bottom() <= y
  }

  lemma InvalidatedAbove(list: seq<Rect>, r: Rect, window: Size, y: int)
    requires AllAbove(list, y) && r.Bottom() <= y
    ensures AllAbove(Invalidated(list, r, window), y)
  {
  }

  /** Merging does not reach further down than what is merged. */
  lemma {:induction false} ListedAbove(t: Tree, parent: Rect, window: Size, list: seq<Rect>, y: int)
    requires AllAbove(list, y) && ListsAbove(t, parent, y)
    ensures AllAbove(Listed(t, parent, window, list), y)
  {
    hide AllAbove, Invalidated, Placed;
    if t.geo.mapped && t.geo.Place(parent) != t.geo.screen {
      var g := t.geo.NotifiedAt(t.geo.Place(parent));
      InvalidatedAbove(list, Extended(t.geo.screen), window, y);
      var first := Invalidated(list, Extended(t.geo.screen), window);
      ListedBelowAbove(t.kids, g.Content(), window, first, y);
      InvalidatedAbove(ListedBelow(t.kids, g.Content(), window, first), g.Area(), window, y);
    }
  }

  lemma {:induction false} ListedBelowAbove(ts: seq<Tree>, content: Rect, window: Size, list: seq<Rect>, y: int)
    requires AllAbove(list, y) && forall i | 0 <= i < |ts| :: ListsAbove(ts[i], content, y)
    ensures AllAbove(ListedBelow(ts, content, window, list), y)
  {
    hide AllAbove, ListsAbove;
    if ts != [] {
      ListedBelowAbove(ts[..|ts| - 1], content, window, list, y);
      ListedAbove(ts[|ts| - 1], content, window, ListedBelow(ts[..|ts| - 1], content, window, list), y);
    }
  }

  /** Moving a toplevel up by three pixels or more leaves its old bottom border wrong, as long as its
      children and what was listed before do not reach down to its last row: a pixel of it is not
      listed, showed the toplevel before, and ought to show the root afterwards. */
  lemma ToplevelMovedUp(ch: Channels, root: Geo, t: Tree, a: Placing, parent: Rect, window: Size, rects: seq<Rect>,
                        dy: int, x: int)
    requires ch.Valid() && t.geo.wclass == ToplevelClass && t.geo.mapped && t.geo.Fits() && t.geo.border >= 1
    requires dy >= 3 && MovesTo(t, a, parent, Moved(t.geo.screen, 0, -dy))
    requires var p := Point(x, t.geo.frame.Bottom() - 1);
             && t.geo.frame.Contains(p) && WindowRect(window).Contains(p) && p in Outline(root)
             && AllAbove(rects, p.y)
             && forall i | 0 <= i < |t.kids| ::
                  ListsAbove(t.kids[i], Content(ToplevelClass, t.geo.border, Moved(t.geo.screen, 0, -dy)), p.y)
    requires MapRgba(ch, t.geo.color) != MapRgba(ch, root.color)
    ensures var p, m := Point(x, t.geo.frame.Bottom() - 1), Managed(t, a);
            && !Covers(Listed(m, parent, window, rects), p)
            && DrawnTree(ch, RootWith(root, t), window, p) == MapRgba(ch, t.geo.color)
            && DrawnTree(ch, RootWith(root, Layout.Run(m, parent, window)), window, p) == MapRgba(ch, root.color)
  {
    hide Placed, WithArguments, Listed, MapRgba, DrawnTree, RootWith;
    var p := Point(x, t.geo.frame.Bottom() - 1);
    assert ListsAbove(Managed(t, a), parent, p.y);
    ListedAbove(Managed(t, a), parent, window, rects, p.y);
    ShowsChild(ch, root, t, window, p);
    ShowsRoot(ch, root, Layout.Run(Managed(t, a), parent, window), window, p);
  }

  /** A toplevel of 320 by 240 at (100, 100) with a border of 4, in a window of 640 by 480. */
  ghost function ExampleToplevel(): Tree {
    var screen := Rect(Point(100, 100), Size(320, 240));
    Tree(Geo(ToplevelClass, Color(1, 0, 0, 255), r => {}, true, PlacerParams(NorthWest, 100, 100, 320, 240, 0.0, 0.0, 0.0, 0.0),
             Size(320, 240), 4, screen, OwnContent(ToplevelClass, 4, screen), FrameRect(4, screen)), [])
  }

  ghost function ExampleRoot(): Geo {
    Geo(FrameClass, Color(0, 0, 0, 255), r => PixelsOf(r), false, PlacerParams(NorthWest, 0, 0, 0, 0, 0.0, 0.0, 0.0, 0.0),
        Size(640, 480), 0, Rect(Point(0, 0), Size(640, 480)), None, NOWHERE)
  }

  function ToHeight(y: int): Placing {
    Placing(None, None, Some(y), None, None, None, None, None, None)
  }

  lemma ExampleMoves(y: int)
    ensures Managed(ExampleToplevel(), ToHeight(y)).geo.Place(Rect(Point(0, 0), Size(640, 480)))
         == Rect(Point(100, y), Size(320, 240))
  {
    assert Truncated(y as real) == y;
    assert 640 as real * 0.0 == 0.0 && 480 as real * 0.0 == 0.0;
  }

  /** Moved up to y = 60, the example leaves a pixel wrong and unlisted. */
  lemma MovedUpExample(ch: Channels)
    requires ch.Valid()
    ensures var t, m, p := ExampleToplevel(), Managed(ExampleToplevel(), ToHeight(60)), Point(150, 373);
            var parent, window := Rect(Point(0, 0), Size(640, 480)), Size(640, 480);
            && !Covers(Listed(m, parent, window, []), p)
            && DrawnTree(ch, RootWith(ExampleRoot(), t), window, p)
               != DrawnTree(ch, RootWith(ExampleRoot(), Run(m, parent, window)), window, p)
  {
    hide Placed, WithArguments, Listed, Covers, MapRgba, DrawnTree, Run;
    var t := ExampleToplevel();
    ExampleMoves(60);
    MapInjective(ch, t.geo.color, ExampleRoot().color);
    ToplevelMovedUp(ch, ExampleRoot(), t, ToHeight(60), Rect(Point(0, 0), Size(640, 480)), Size(640, 480), [], 40, 150);
  }

  /** Moved down to y = 101, it is repainted completely. */
  lemma MovedDownExample(rects: seq<Rect>)
    ensures AllListed(ExampleToplevel(), ToHeight(101), Rect(Point(0, 0), Size(640, 480)), Size(640, 480), rects)
  {
    hide Placed, WithArguments, AllListed;
    ExampleMoves(101);
    ToplevelsListedIf(ExampleToplevel(), ToHeight(101), Rect(Point(0, 0), Size(640, 480)), Size(640, 480), rects,
                      Rect(Point(100, 101), Size(320, 240)));
  }

  // ----- buttons -----

  /** A button that moves is repainted completely exactly when the polygon at its new place is listed. */
  lemma ButtonsExactly(t: Tree, a: Placing, parent: Rect, window: Size, rects: seq<Rect>, place: Rect)
    requires t.geo.wclass == ButtonClass && t.geo.border > 0 && t.geo.Fits() && ShapeWithin(t.geo)
    requires MovesTo(t, a, parent, place)
    ensures AllListed(t, a, parent, window, rects) <==>
              forall p | WindowRect(window).Contains(p) && p in t.geo.shape(place) ::
                Covers(Listed(Managed(t, a), parent, window, rects), p)
  {
    hide Placed, WithArguments, Listed, Covers;
    TouchedIsListed(t, a, parent, window, rects, place);
    var n := Managed(t, a).geo.NotifiedAt(place);
    IntersectionIsExact(n.Content(), WindowRect(window));
    assert forall p :: !Misses(t.geo, p) ==> Extended(t.geo.screen).Contains(p);
    assert forall p :: p in t.geo.shape(place) ==> !Misses(n.ClippedTo(window), p);
    assert forall p | WindowRect(window).Contains(p) ::
        !Misses(n.ClippedTo(window), p) ==> p in t.geo.shape(place) || n.Area().Contains(p);
  }

  /** With any children and after any invalidations, a button is repainted completely if its new polygon
      keeps within the listed old place and its new content. */
  lemma ButtonsListedIf(t: Tree, a: Placing, parent: Rect, window: Size, rects: seq<Rect>, place: Rect)
    requires t.geo.wclass == ButtonClass && t.geo.border > 0 && t.geo.Fits() && ShapeWithin(t.geo)
    requires MovesTo(t, a, parent, place)
    requires forall p | WindowRect(window).Contains(p) && p in t.geo.shape(place) ::
               Extended(t.geo.screen).Contains(p) || Content(ButtonClass, t.geo.border, place).Contains(p)
    ensures AllListed(t, a, parent, window, rects)
  {
    hide Placed, WithArguments, Listed, Covers, AllListed;
    ButtonsExactly(t, a, parent, window, rects, place);
    TouchedIsListed(t, a, parent, window, rects, place);
    assert Managed(t, a).geo.NotifiedAt(place).Area() == Content(ButtonClass, t.geo.border, place);
  }

  /** A button that moves by two pixels or less in either direction is repainted completely. */
  lemma ButtonNudged(t: Tree, a: Placing, parent: Rect, window: Size, rects: seq<Rect>, dx: int, dy: int)
    requires t.geo.wclass == ButtonClass && t.geo.border > 0 && t.geo.Fits() && ShapeWithin(t.geo)
    requires -2 <= dx <= 2 && -2 <= dy <= 2 && MovesTo(t, a, parent, Moved(t.geo.screen, dx, dy))
    ensures AllListed(t, a, parent, window, rects)
  {
    hide Placed, WithArguments, AllListed;
    assert forall p | Moved(t.geo.screen, dx, dy).Contains(p) :: Extended(t.geo.screen).Contains(p);
    ButtonsListedIf(t, a, parent, window, rects, Moved(t.geo.screen, dx, dy));
  }

  /** Exactly when moving a button without children, from an empty list, is repainted completely: its
      new polygon keeps within the merged rectangle, or, if the old place and the new content are
      listed apart, within these two. */
  lemma LoneButtonsExactly(t: Tree, a: Placing, parent: Rect, window: Size, place: Rect)
    requires t.geo.wclass == ButtonClass && t.geo.border > 0 && t.geo.Fits() && ShapeWithin(t.geo) && t.kids == []
    requires MovesTo(t, a, parent, place)
    ensures var was := Clipped(Extended(t.geo.screen), window);
            var now := Clipped(Content(ButtonClass, t.geo.border, place), window);
            AllListed(t, a, parent, window, []) <==>
              forall p | WindowRect(window).Contains(p) && p in t.geo.shape(place) ::
                if Merges(was, now) then Around(was, now).Contains(p) else was.Contains(p) || now.Contains(p)
  {
    hide Placed, WithArguments, Listed, Covers, Merges, Around, AllListed, Extended, Intersection;
    var was, now := ListedOld(t, window), ListedNew(t, a, place, window);
    assert now == Clipped(Content(ButtonClass, t.geo.border, place), window);
    ButtonsExactly(t, a, parent, window, [], place);
    ListedAlone(t, a, parent, window, place);
    forall p: Point
      ensures Covers([Around(was, now)], p) <==> Around(was, now).Contains(p)
      ensures Covers([was, now], p) <==> was.Contains(p) || now.Contains(p)
    {
      CoversOne(Around(was, now), p);
      CoversTwo(was, now, p);
    }
  }

  /** For a button without children on the root, after any invalidations, the surface is right wherever
      nothing is listed exactly when all that the move repaints is listed. */
  lemma ButtonsShowExactly(ch: Channels, root: Geo, t: Tree, a: Placing, parent: Rect, window: Size, rects: seq<Rect>,
                           place: Rect)
    requires ch.Valid() && t.geo.wclass == ButtonClass && t.geo.border > 0 && t.geo.Fits() && ShapeWithin(t.geo)
    requires t.kids == [] && MovesTo(t, a, parent, place)
    requires CoversWindow(root, window) && MapRgba(ch, t.geo.color) != MapRgba(ch, root.color)
    ensures var m := Managed(t, a);
            AllListed(t, a, parent, window, rects) <==>
              RightUnlisted(ch, RootWith(root, t), RootWith(root, Layout.Run(m, parent, window)), window,
                            Listed(m, parent, window, rects))
  {
    hide Placed, WithArguments, Listed, Covers, MapRgba, DrawnTree, RootWith, AllListed;
    var m := Managed(t, a);
    var r, list := Layout.Run(m, parent, window), Listed(m, parent, window, rects);
    TouchedIsListed(t, a, parent, window, rects, place);
    ButtonsExactly(t, a, parent, window, rects, place);
    forall p | WindowRect(window).Contains(p) && !Covers(list, p)
      ensures DrawnTree(ch, RootWith(root, t), window, p) == MapRgba(ch, root.color)
      ensures DrawnTree(ch, RootWith(root, r), window, p) == MapRgba(ch, root.color) <==> p !in t.geo.shape(place)
    {
      assert !Extended(t.geo.screen).Contains(p);
      assert Misses(t.geo, p);
      ShowsRoot(ch, root, t, window, p);
      assert Outline(r.geo) == t.geo.shape(place) && r.geo.mapped;
      if p in t.geo.shape(place) {
        ShowsChild(ch, root, r, window, p);
      } else {
        IntersectionIsExact(m.geo.NotifiedAt(place).Content(), WindowRect(window));
        assert Misses(r.geo, p);
        ShowsRoot(ch, root, r, window, p);
      }
    }
  }

  /** Moving a button with a border to the right by three pixels or more leaves its new right border
      wrong: a pixel of it is not listed, showed the root before, and ought to show the button. */
  lemma ButtonMovedRight(ch: Channels, root: Geo, t: Tree, a: Placing, parent: Rect, window: Size, dx: int, y: int)
    requires ch.Valid() && t.geo.wclass == ButtonClass && t.geo.mapped && t.geo.border > 0 && ShapeWithin(t.geo)
    requires t.geo.Fits() && t.kids == [] && dx >= 3 && MovesTo(t, a, parent, Moved(t.geo.screen, dx, 0))
    requires var p := Point(t.geo.screen.Right() + dx - 1, y);
             p in t.geo.shape(Moved(t.geo.screen, dx, 0)) && WindowRect(window).Contains(p) && p in Outline(root)
    requires MapRgba(ch, t.geo.color) != MapRgba(ch, root.color)
    ensures var p, m := Point(t.geo.screen.Right() + dx - 1, y), Managed(t, a);
            && !Covers(Listed(m, parent, window, []), p)
            && DrawnTree(ch, RootWith(root, t), window, p) == MapRgba(ch, root.color)
            && DrawnTree(ch, RootWith(root, Run(m, parent, window)), window, p) == MapRgba(ch, t.geo.color)
  {
    hide Placed, WithArguments, Listed, Covers, MapRgba, Merges, DrawnTree;
    var place := Moved(t.geo.screen, dx, 0);
    var p := Point(t.geo.screen.Right() + dx - 1, y);
    ListedAlone(t, a, parent, window, place);
    var was, now := ListedOld(t, window), ListedNew(t, a, place, window);
    assert was.Right() <= p.x && now.Right() <= p.x && Around(was, now).Right() <= p.x;
    CoversOne(Around(was, now), p);
    CoversTwo(was, now, p);
    assert p !in t.geo.shape(t.geo.screen);
    assert t.geo.Fits() && !t.geo.Content().Contains(p);
    ShowsRoot(ch, root, t, window, p);
    ShowsChild(ch, root, Run(Managed(t, a), parent, window), window, p);
  }

  /** A rectangular button of 100 by 40 at (50, 50) with a border of 4, in a window of 640 by 480. */
  ghost function ExampleButton(): Tree {
    var screen := Rect(Point(50, 50), Size(100, 40));
    Tree(Geo(ButtonClass, Color(1, 0, 0, 255), r => PixelsOf(r), true,
             PlacerParams(NorthWest, 50, 50, 100, 40, 0.0, 0.0, 0.0, 0.0), Size(100, 40), 4, screen,
             OwnContent(ButtonClass, 4, screen), NOWHERE), [])
  }

  /** Moved right to x = 60, the example leaves a pixel wrong and unlisted; moved to x = 52, it is repainted
      completely. */
  lemma MovedRightExample(ch: Channels)
    requires ch.Valid()
    ensures var t, m, p := ExampleButton(), Managed(ExampleButton(), ToX(60)), Point(159, 60);
            var parent, window := Rect(Point(0, 0), Size(640, 480)), Size(640, 480);
            && !Covers(Listed(m, parent, window, []), p)
            && DrawnTree(ch, RootWith(ExampleRoot(), t), window, p)
               != DrawnTree(ch, RootWith(ExampleRoot(), Run(m, parent, window)), window, p)
    ensures AllListed(ExampleButton(), ToX(52), Rect(Point(0, 0), Size(640, 480)), Size(640, 480), [])
  {
    hide Placed, WithArguments, Listed, Covers, MapRgba, DrawnTree, Run, AllListed;
    var t := ExampleButton();
    ButtonExampleMoves(60);
    ButtonExampleMoves(52);
    MapInjective(ch, t.geo.color, ExampleRoot().color);
    ButtonMovedRight(ch, ExampleRoot(), t, ToX(60), Rect(Point(0, 0), Size(640, 480)), Size(640, 480), 10, 60);
    ButtonNudged(t, ToX(52), Rect(Point(0, 0), Size(640, 480)), Size(640, 480), [], 2, 0);
  }

  function ToX(x: int): Placing {
    Placing(None, Some(x), None, None, None, None, None, None, None)
  }

  lemma ButtonExampleMoves(x: int)
    ensures Managed(ExampleButton(), ToX(x)).geo.Place(Rect(Point(0, 0), Size(640, 480)))
         == Rect(Point(x, 50), Size(100, 40))
  {
    assert Truncated(x as real) == x;
    assert 640 as real * 0.0 == 0.0 && 480 as real * 0.0 == 0.0;
  }
}
