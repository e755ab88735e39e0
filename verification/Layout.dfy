/** Re-placing a tree of widgets incrementally, compared with laying it out from scratch. */
module Layout {
  import opened Geometry
  import opened Pixels
  import opened Surfaces
  import opened WidgetTree
  import opened Invalidation
  import opened Placement

  /** The fields of a widget that the layout and the drawing use. */
  datatype Geo = Geo(wclass: WidgetClass, color: Color, shape: Rect -> set<Point>, mapped: bool,
                     params: PlacerParams, requested: Size, border: int,
                     screen: Rect, own: Option<Rect>, frame: Rect) {

    function Content(): Rect {
      if own.Some? then own.value else screen
    }

    function Place(parent: Rect): Rect {
      Placed(params, requested, parent)
    }

    /** A managed widget is where the placer puts it in this content of its parent. */
    predicate Settled(parent: Rect) {
      mapped ==> screen == Place(parent)
    }

    /** A managed widget's content and frame rectangles belong to its screen location. */
    predicate Fits() {
      mapped ==> own == OwnContent(wclass, border, screen) && (wclass == ToplevelClass ==> frame == FrameRect(border, screen))
    }

    /** A frame without a border has no content rectangle left from the time it had one. */
    predicate Bordered() {
      wclass == FrameClass && border == 0 ==> own == None
    }

    /** The widget laid out from scratch at a place. */
    function FittedAt(place: Rect): Geo {
      this.(screen := place, own := OwnContent(wclass, border, place),
            frame := if wclass == ToplevelClass then FrameRect(border, place) else frame)
    }

    /** The widget after its class has been notified of a new place: a frame without a border
        keeps the content rectangle it has. */
    function NotifiedAt(place: Rect): Geo {
      if Bordered() then FittedAt(place) else this.(screen := place)
    }

    /** The rectangle listed for redrawing after a notification. */
    function Area(): Rect {
      match wclass
      case FrameClass => screen
      case ButtonClass => Content()
      case ToplevelClass => Extended(frame)
    }

    /** A frame passes its own screen location, and a button its own content, to be clipped in place. */
    function ClippedTo(window: Size): Geo {
      if wclass == ToplevelClass then this
      else if wclass == ButtonClass && own.Some? then this.(own := Some(Clipped(own.value, window)))
      else this.(screen := Clipped(screen, window))
    }

    /** Clipping in place changes nothing. */
    predicate Roomy(window: Size) {
      wclass == ToplevelClass || Within(Area(), window)
    }
  }

  datatype Tree = Tree(geo: Geo, kids: seq<Tree>)

  /** The tree after its top widget has been re-placed in this content of its parent. Where the
      widget does not move, nothing below it is looked at. */
  function Run(t: Tree, parent: Rect, window: Size): Tree {
    var place := t.geo.Place(parent);
    if !t.geo.mapped || place == t.geo.screen then t
    else
      var g := t.geo.NotifiedAt(place);
      Tree(g.ClippedTo(window), RunBelow(t.kids, g.Content(), window))
  }

  function RunBelow(ts: seq<Tree>, content: Rect, window: Size): (rs: seq<Tree>)
    ensures |rs| == |ts| && forall i | 0 <= i < |ts| :: rs[i] == Run(ts[i], content, window)
  {
    seq(|ts|, i requires 0 <= i < |ts| => Run(ts[i], content, window))
  }

  /** The tree laid out from scratch, every managed widget from its parent down; an unmanaged widget
      and what is below it are left alone. */
  function Full(t: Tree, parent: Rect): Tree {
    if !t.geo.mapped then t
    else
      var g := t.geo.FittedAt(t.geo.Place(parent));
      Tree(g, seq(|t.kids|, i requires 0 <= i < |t.kids| => Full(t.kids[i], g.Content())))
  }

  /** Every managed widget under managed ancestors satisfies its equations. */
  predicate Consistent(t: Tree, parent: Rect) {
    t.geo.mapped ==>
      t.geo.Settled(parent) && t.geo.Fits()
      && forall i | 0 <= i < |t.kids| :: Consistent(t.kids[i], t.geo.Content())
  }

  /** Every widget below the top satisfies its equations. */
  ghost predicate KidsConsistent(t: Tree) {
    forall i | 0 <= i < |t.kids| :: Consistent(t.kids[i], t.geo.Content())
  }

  /** Every managed widget under managed ancestors is where the placer puts it, so that running the
      placer while drawing changes nothing. */
  predicate Still(t: Tree, parent: Rect) {
    t.geo.mapped ==> t.geo.Settled(parent) && forall i | 0 <= i < |t.kids| :: Still(t.kids[i], t.geo.Content())
  }

  lemma {:induction false} ConsistentIsStill(t: Tree, parent: Rect)
    requires Consistent(t, parent)
    ensures Still(t, parent)
  {
    if t.geo.mapped {
      forall i | 0 <= i < |t.kids|
        ensures Still(t.kids[i], t.geo.Content())
      {
        ConsistentIsStill(t.kids[i], t.geo.Content());
      }
    }
  }

  /** Every widget that has to move has its borders unchanged, and a place where clipping it in
      place changes nothing. */
  predicate RoomFor(t: Tree, parent: Rect, window: Size) {
    var place := t.geo.Place(parent);
    t.geo.mapped && place != t.geo.screen ==>
      t.geo.Bordered() && t.geo.FittedAt(place).Roomy(window)
      && forall i | 0 <= i < |t.kids| :: RoomFor(t.kids[i], t.geo.FittedAt(place).Content(), window)
  }

  /** A tree satisfies its equations exactly when laying it out from scratch changes nothing. */
  lemma {:induction false} ConsistentExactly(t: Tree, parent: Rect)
    ensures Consistent(t, parent) <==> Full(t, parent) == t
  {
    hide Placed, OwnContent, FrameRect;
    if t.geo.mapped {
      var g := Full(t, parent).geo;
      assert g == t.geo <==> t.geo.Settled(parent) && t.geo.Fits();
      forall i | 0 <= i < |t.kids|
        ensures Consistent(t.kids[i], g.Content()) <==> Full(t.kids[i], g.Content()) == t.kids[i]
      {
        ConsistentExactly(t.kids[i], g.Content());
      }
      assert forall i | 0 <= i < |t.kids| :: Full(t, parent).kids[i] == Full(t.kids[i], g.Content());
    }
  }

  /** Clipping in place takes a widget out of its layout unless it changes nothing. */
  lemma ClippingUnsettles(g: Geo, place: Rect, parent: Rect, window: Size)
    requires g.mapped && place == g.Place(parent)
    ensures var c := g.NotifiedAt(place).ClippedTo(window);
            if g.Bordered() && g.FittedAt(place).Roomy(window) then c == g.FittedAt(place) && c.Settled(parent) && c.Fits()
            else !(c.Settled(parent) && c.Fits())
  {
    hide Placed, FrameRect;
    var f := g.FittedAt(place);
    ClippedExactly(f.screen, window);
    ClippedExactly(f.Content(), window);
  }

  /** Re-placing the tree will do: a widget that moves has its borders unchanged and a place where
      clipping it in place changes nothing, and its children are ready for its new content; what
      does not move satisfies its equations. */
  predicate ReadyFor(t: Tree, parent: Rect, window: Size) {
    var place := t.geo.Place(parent);
    t.geo.mapped ==>
      if place == t.geo.screen then Consistent(t, parent)
      else t.geo.Bordered() && t.geo.FittedAt(place).Roomy(window)
           && forall i | 0 <= i < |t.kids| :: ReadyFor(t.kids[i], t.geo.FittedAt(place).Content(), window)
  }

  /** Incremental layout equals full layout. Re-placing a tree, in whatever state, makes the whole tree
      satisfy its equations, although unmoved parts are skipped, exactly when it is ready; and then
      it is the tree that a layout from scratch gives. */
  lemma {:induction false} IncrementalIsFull(t: Tree, parent: Rect, window: Size)
    ensures Consistent(Run(t, parent, window), parent) <==> ReadyFor(t, parent, window)
    ensures ReadyFor(t, parent, window) ==> Run(t, parent, window) == Full(t, parent)
  {
    hide Placed, OwnContent, FrameRect;
    var place := t.geo.Place(parent);
    if t.geo.mapped && place != t.geo.screen {
      var f := t.geo.FittedAt(place);
      ClippingUnsettles(t.geo, place, parent, window);
      if t.geo.Bordered() && f.Roomy(window) {
        forall i | 0 <= i < |t.kids|
          ensures Consistent(Run(t.kids[i], f.Content(), window), f.Content()) <==> ReadyFor(t.kids[i], f.Content(), window)
          ensures ReadyFor(t.kids[i], f.Content(), window) ==>
                    Run(t.kids[i], f.Content(), window) == Full(t.kids[i], f.Content())
        {
          IncrementalIsFull(t.kids[i], f.Content(), window);
        }
        var r := Run(t, parent, window);
        assert r.geo == f && forall i | 0 <= i < |t.kids| :: r.kids[i] == Run(t.kids[i], f.Content(), window);
        assert ReadyFor(t, parent, window) ==> r.kids == Full(t, parent).kids;
      }
    } else {
      ConsistentExactly(t, parent);
    }
  }

  /** Below a top widget that fits or has to move, everything satisfies its equations. */
  predicate ConsistentBelow(t: Tree, parent: Rect) {
    (t.geo.Fits() || t.geo.screen != t.geo.Place(parent))
    && forall i | 0 <= i < |t.kids| :: Consistent(t.kids[i], t.geo.Content())
  }

  /** A tree that satisfies its equations is ready for a new place of its top widget exactly when there
      is room for every widget that has to move. */
  lemma {:induction false} ReadyWhereConsistent(t: Tree, parent: Rect, window: Size)
    requires ConsistentBelow(t, parent)
    ensures ReadyFor(t, parent, window) <==> RoomFor(t, parent, window)
  {
    hide Placed, OwnContent, FrameRect;
    var place := t.geo.Place(parent);
    if t.geo.mapped && place != t.geo.screen {
      forall i | 0 <= i < |t.kids|
        ensures ReadyFor(t.kids[i], t.geo.FittedAt(place).Content(), window)
                <==> RoomFor(t.kids[i], t.geo.FittedAt(place).Content(), window)
      {
        if t.kids[i].geo.mapped {
          ReadyWhereConsistent(t.kids[i], t.geo.FittedAt(place).Content(), window);
        }
      }
    }
  }

  // ----- what re-placing lists for redrawing -----

  /** The list of invalidated rectangles after the top widget has been re-placed: the old place of
      each widget that moves, then what its children list, then its new area. */
  function Listed(t: Tree, parent: Rect, window: Size, list: seq<Rect>): seq<Rect> {
    var place := t.geo.Place(parent);
    if !t.geo.mapped || place == t.geo.screen then list
    else
      var g := t.geo.NotifiedAt(place);
      Invalidated(ListedBelow(t.kids, g.Content(), window, Invalidated(list, Extended(t.geo.screen), window)),
                  g.Area(), window)
  }

  function ListedBelow(ts: seq<Tree>, content: Rect, window: Size, list: seq<Rect>): seq<Rect> {
    if ts == [] then list
    else Listed(ts[|ts| - 1], content, window, ListedBelow(ts[..|ts| - 1], content, window, list))
  }

  /** A widget that moves has had its old place around the pixel, or gets its new area there. */
  predicate Touched(t: Tree, parent: Rect, p: Point) {
    var place := t.geo.Place(parent);
    t.geo.mapped && place != t.geo.screen
    && var g := t.geo.NotifiedAt(place);
       Extended(t.geo.screen).Contains(p) || g.Area().Contains(p)
       || exists i | 0 <= i < |t.kids| :: Touched(t.kids[i], g.Content(), p)
  }

  /** No move escapes redrawing: every pixel of the window that a moved widget leaves or enters is
      listed, and so is everything that was listed before. */
  lemma {:induction false} MovesAreListed(t: Tree, parent: Rect, window: Size, list: seq<Rect>, p: Point)
    requires WindowRect(window).Contains(p)
    ensures Covers(list, p) || Touched(t, parent, p) ==> Covers(Listed(t, parent, window, list), p)
  {
    hide Invalidated, Covers, Placed;
    var place := t.geo.Place(parent);
    if t.geo.mapped && place != t.geo.screen {
      var g := t.geo.NotifiedAt(place);
      var first := Invalidated(list, Extended(t.geo.screen), window);
      var below := ListedBelow(t.kids, g.Content(), window, first);
      if Covers(list, p) || Extended(t.geo.screen).Contains(p) {
        InvalidatedCovers(list, Extended(t.geo.screen), window, p);
      }
      MovesBelowAreListed(t.kids, g.Content(), window, first, p);
      if Covers(below, p) || g.Area().Contains(p) {
        InvalidatedCovers(below, g.Area(), window, p);
      }
    }
  }

  lemma {:induction false} MovesBelowAreListed(ts: seq<Tree>, content: Rect, window: Size, list: seq<Rect>, p: Point)
    requires WindowRect(window).Contains(p)
    ensures Covers(list, p) || (exists i | 0 <= i < |ts| :: Touched(ts[i], content, p)) ==>
              Covers(ListedBelow(ts, content, window, list), p)
  {
    hide Covers, Touched;
    if ts != [] {
      MovesBelowAreListed(ts[..|ts| - 1], content, window, list, p);
      MovesAreListed(ts[|ts| - 1], content, window, ListedBelow(ts[..|ts| - 1], content, window, list), p);
    }
  }

  /** The list stays within the window. */
  lemma {:induction false} ListedWithin(t: Tree, parent: Rect, window: Size, list: seq<Rect>)
    requires AllWithin(list, window)
    ensures AllWithin(Listed(t, parent, window, list), window)
  {
    hide Invalidated, AllWithin, Placed;
    var place := t.geo.Place(parent);
    if t.geo.mapped && place != t.geo.screen {
      var g := t.geo.NotifiedAt(place);
      var first := Invalidated(list, Extended(t.geo.screen), window);
      InvalidatedWithin(list, Extended(t.geo.screen), window);
      ListedBelowWithin(t.kids, g.Content(), window, first);
      InvalidatedWithin(ListedBelow(t.kids, g.Content(), window, first), g.Area(), window);
    }
  }

  lemma {:induction false} ListedBelowWithin(ts: seq<Tree>, content: Rect, window: Size, list: seq<Rect>)
    requires AllWithin(list, window)
    ensures AllWithin(ListedBelow(ts, content, window, list), window)
  {
    hide AllWithin;
    if ts != [] {
      ListedBelowWithin(ts[..|ts| - 1], content, window, list);
      ListedWithin(ts[|ts| - 1], content, window, ListedBelow(ts[..|ts| - 1], content, window, list));
    }
  }
}
