/** What re-placing a widget repaints: the picture of a tree of widgets, before and after. */
module Repainting {
  import opened Geometry
  import opened Pixels
  import opened Surfaces
  import opened Picture
  import opened WidgetTree
  import opened Invalidation
  import opened Placement
  import opened Layout
  import opened Placer

  ghost function Outline(g: Geo): set<Point> {
    if g.wclass == ToplevelClass then PixelsOf(g.frame) else g.shape(g.screen)
  }

  /** What drawing needs to know of a widget that is not a close button. */
  ghost function InfoFrom(ch: Channels, g: Geo): Info
    requires ch.Valid()
  {
    Info(MapRgba(ch, g.color), g.mapped, Outline(g), g.Content(), None)
  }

  ghost function ForestOf(ch: Channels, ts: seq<Tree>): Forest
    requires ch.Valid()
  {
    if ts == [] then Nil else Cons(InfoFrom(ch, ts[0].geo), ForestOf(ch, ts[0].kids), ForestOf(ch, ts[1..]))
  }

  /** The widget paints nothing at the pixel, and neither does anything below it. */
  ghost predicate Misses(g: Geo, p: Point) {
    !g.mapped || (p !in Outline(g) && !g.Content().Contains(p))
  }

  ghost predicate LooksSame(g: Geo, h: Geo) {
    g.color == h.color && g.mapped == h.mapped && Outline(g) == Outline(h) && g.Content() == h.Content()
  }

  /** The two trees are alike at the pixel: where their widgets look different, both miss it. */
  ghost predicate AlikeAt(t: Tree, r: Tree, p: Point) {
    && |t.kids| == |r.kids|
    && ((Misses(t.geo, p) && Misses(r.geo, p))
        || (LooksSame(t.geo, r.geo) && forall i | 0 <= i < |t.kids| :: AlikeAt(t.kids[i], r.kids[i], p)))
  }

  lemma {:induction false} AlikeItself(t: Tree, p: Point)
    ensures AlikeAt(t, t, p)
  {
    forall i | 0 <= i < |t.kids|
      ensures AlikeAt(t.kids[i], t.kids[i], p)
    {
      AlikeItself(t.kids[i], p);
    }
  }

  /** Trees that are alike at a pixel paint it alike. */
  lemma {:induction false} AlikePaintsAlike(ch: Channels, ts: seq<Tree>, rs: seq<Tree>, clip: Rect, p: Point, under: nat)
    requires ch.Valid() && |ts| == |rs| && forall i | 0 <= i < |ts| :: AlikeAt(ts[i], rs[i], p)
    ensures Painted(ForestOf(ch, ts), clip, p, under) == Painted(ForestOf(ch, rs), clip, p, under)
  {
    hide MapRgba, Intersection, Outline;
    if ts != [] {
      var t, r := ts[0], rs[0];
      var after := OneSubtree(ch, t, clip, p, under);
      assert OneSubtree(ch, r, clip, p, under) == after by {
        if Misses(t.geo, p) && Misses(r.geo, p) {
          MissedIsUnpainted(ch, t, clip, p, under);
          MissedIsUnpainted(ch, r, clip, p, under);
        } else {
          var inner := Intersection(clip, t.geo.Content());
          var own := if clip.Contains(p) && p in Outline(t.geo) then MapRgba(ch, t.geo.color) else under;
          AlikePaintsAlike(ch, t.kids, r.kids, inner, p, own);
        }
      }
      AlikePaintsAlike(ch, ts[1..], rs[1..], clip, p, after);
    }
  }

  /** What one widget and everything below it leave at a pixel. */
  ghost function OneSubtree(ch: Channels, t: Tree, clip: Rect, p: Point, under: nat): nat
    requires ch.Valid()
  {
    var w := InfoFrom(ch, t.geo);
    if !w.mapped then under
    else PaintedIn(ForestOf(ch, t.kids), Intersection(clip, w.content), p,
                   if clip.Contains(p) && p in w.outline then w.ink else under)
  }

  lemma PaintedOne(ch: Channels, t: Tree, clip: Rect, p: Point, under: nat)
    requires ch.Valid()
    ensures Painted(ForestOf(ch, [t]), clip, p, under) == OneSubtree(ch, t, clip, p, under)
  {
    hide MapRgba, Intersection, Outline;
    var none: seq<Tree> := [];
    var w, kids := InfoFrom(ch, t.geo), ForestOf(ch, t.kids);
    assert [t][1..] == none && ForestOf(ch, none) == Nil && ForestOf(ch, [t]) == Cons(w, kids, Nil);
    if w.mapped {
      PaintedNode(w, kids, Nil, clip, p, under);
    }
    assert Painted(Cons(w, kids, Nil), clip, p, under) == if w.mapped then OneSubtree(ch, t, clip, p, under) else under;
  }

  lemma {:induction false} ForestIsClipped(ch: Channels, ts: seq<Tree>)
    requires ch.Valid()
    ensures AllClipped(ForestOf(ch, ts))
  {
    hide MapRgba, Outline;
    if ts != [] {
      ForestIsClipped(ch, ts[0].kids);
      ForestIsClipped(ch, ts[1..]);
    }
  }

  lemma MissedIsUnpainted(ch: Channels, t: Tree, clip: Rect, p: Point, under: nat)
    requires ch.Valid() && Misses(t.geo, p)
    ensures OneSubtree(ch, t, clip, p, under) == under
  {
    hide MapRgba, Outline;
    if t.geo.mapped {
      IntersectionIsExact(clip, t.geo.Content());
      ForestIsClipped(ch, t.kids);
      PaintedOutside(ForestOf(ch, t.kids), Intersection(clip, t.geo.Content()), p, under);
    }
  }

  // ----- what a placement repaints -----

  /** The placement may change what the tree of the widget paints at the pixel: the widget moves and
      painted there or will paint there, or it appears without having to move. */
  ghost predicate Repaints(t: Tree, a: Placing, parent: Rect, window: Size, p: Point) {
    var g := Managed(t, a).geo;
    var place := g.Place(parent);
    if place == g.screen then !t.geo.mapped && !Misses(g, p)
    else !Misses(t.geo, p) || !Misses(g.NotifiedAt(place).ClippedTo(window), p)
  }

  /** A placement leaves every pixel alike that it does not repaint. */
  lemma PlacementIsAlike(t: Tree, a: Placing, parent: Rect, window: Size, p: Point)
    requires !Repaints(t, a, parent, window, p)
    ensures AlikeAt(t, Run(Managed(t, a), parent, window), p)
  {
    var m := Managed(t, a);
    if m.geo.Place(parent) == m.geo.screen {
      AlikeItself(t, p);
      assert t.geo.mapped ==> LooksSame(t.geo, m.geo);
      KidsAlike(t, p);
    }
  }

  lemma KidsAlike(t: Tree, p: Point)
    ensures forall i | 0 <= i < |t.kids| :: AlikeAt(t.kids[i], t.kids[i], p)
  {
    forall i | 0 <= i < |t.kids|
      ensures AlikeAt(t.kids[i], t.kids[i], p)
    {
      AlikeItself(t.kids[i], p);
    }
  }

  /** The trees are alike at every pixel of the window that is not listed. */
  ghost predicate AlikeUnlisted(t: Tree, r: Tree, list: seq<Rect>, window: Size) {
    forall p | WindowRect(window).Contains(p) && !Covers(list, p) :: AlikeAt(t, r, p)
  }

  /** Every pixel of the window that the placement repaints is listed afterwards. */
  ghost predicate AllListed(t: Tree, a: Placing, parent: Rect, window: Size, rects: seq<Rect>) {
    forall p | WindowRect(window).Contains(p) && Repaints(t, a, parent, window, p) ::
      Covers(Listed(Managed(t, a), parent, window, rects), p)
  }

  lemma PlacementAlikeUnlisted(t: Tree, a: Placing, parent: Rect, window: Size, rects: seq<Rect>)
    requires AllListed(t, a, parent, window, rects)
    ensures var after := Listed(Managed(t, a), parent, window, rects);
            AlikeUnlisted(t, Run(Managed(t, a), parent, window), after, window)
            && forall p | WindowRect(window).Contains(p) && Covers(rects, p) :: Covers(after, p)
  {
    hide Listed, Run, Touched, Repaints, AlikeAt, Covers;
    forall p | WindowRect(window).Contains(p)
      ensures Covers(rects, p) ==> Covers(Listed(Managed(t, a), parent, window, rects), p)
    {
      MovesAreListed(Managed(t, a), parent, window, rects, p);
    }
    forall p | WindowRect(window).Contains(p) && !Covers(Listed(Managed(t, a), parent, window, rects), p)
      ensures AlikeAt(t, Run(Managed(t, a), parent, window), p)
    {
      PlacementIsAlike(t, a, parent, window, p);
    }
  }

  // ----- the whole tree -----

  ghost function DrawnTree(ch: Channels, t: Tree, window: Size, p: Point): nat
    requires ch.Valid()
  {
    Drawn(InfoFrom(ch, t.geo), ForestOf(ch, t.kids), WindowRect(window), p, 0)
  }
}
