/** Whole sessions: any run of creates, placements, destroys and redraws, on the tree of widgets, the list of
    invalidated rectangles and the pick surface. */
module Sessions {
  import opened Geometry
  import opened Pixels
  import opened Picture
  import opened Invalidation
  import opened Placement
  import opened Layout
  import opened Placer
  import opened Repainting
  import opened MovedWidgets
  import opened DestroyedWidgets

  // ----- editing a tree -----

  /** The path of child numbers leads to a widget of the tree. */
  predicate On(t: Tree, path: seq<nat>)
    decreases |path|, 0
  {
    path == [] || (On(t, path[..|path| - 1]) && path[|path| - 1] < |TreeAt(t, path[..|path| - 1]).kids|)
  }

  function TreeAt(t: Tree, path: seq<nat>): Tree
    requires On(t, path)
    decreases |path|, 1
  {
    if path == [] then t else TreeAt(t, path[..|path| - 1]).kids[path[|path| - 1]]
  }

  /** The content that the widget at the end of the path is placed in. */
  function ContentAbove(t: Tree, path: seq<nat>): Rect
    requires path != [] && On(t, path)
  {
    TreeAt(t, path[..|path| - 1]).geo.Content()
  }

  /** The tree with other children in place of one. */
  function KidEdited(t: Tree, k: nat, cs: seq<Tree>): Tree
    requires k < |t.kids|
  {
    t.(kids := t.kids[..k] + cs + t.kids[k + 1..])
  }

  /** The tree with other siblings in place of the widget at the end of the path. */
  function Edited(t: Tree, path: seq<nat>, cs: seq<Tree>): Tree
    requires path != [] && On(t, path)
  {
    var above := path[..|path| - 1];
    var u := KidEdited(TreeAt(t, above), path[|path| - 1], cs);
    if above == [] then u else Edited(t, above, [u])
  }

  lemma {:induction false} KeepsTop(t: Tree, path: seq<nat>, cs: seq<Tree>)
    requires path != [] && On(t, path)
    ensures Edited(t, path, cs).geo == t.geo
  {
    var above, k := path[..|path| - 1], path[|path| - 1];
    if above != [] {
      KeepsTop(t, above, [KidEdited(TreeAt(t, above), k, cs)]);
    }
  }

  /** The tree with one more child, before the `k`th. */
  function KidInserted(t: Tree, k: nat, c: Tree): Tree
    requires k <= |t.kids|
  {
    t.(kids := t.kids[..k] + [c] + t.kids[k..])
  }

  /** The tree with one more child of the widget at the end of the path. */
  function Inserted(t: Tree, path: seq<nat>, k: nat, c: Tree): Tree
    requires On(t, path) && k <= |TreeAt(t, path).kids|
  {
    var u := KidInserted(TreeAt(t, path), k, c);
    if path == [] then u else Edited(t, path, [u])
  }

  /** Drawn in any clip over anything, the trees leave the same at the pixel. */
  ghost predicate PaintAlike(ch: Channels, ts: seq<Tree>, rs: seq<Tree>, p: Point)
    requires ch.Valid()
  {
    forall clip, under :: Painted(ForestOf(ch, ts), clip, p, under) == Painted(ForestOf(ch, rs), clip, p, under)
  }

  lemma {:induction false} PaintedInTurn(ch: Channels, ts: seq<Tree>, rs: seq<Tree>, clip: Rect, p: Point, under: nat)
    requires ch.Valid()
    ensures Painted(ForestOf(ch, ts + rs), clip, p, under)
         == Painted(ForestOf(ch, rs), clip, p, Painted(ForestOf(ch, ts), clip, p, under))
  {
    hide MapRgba, Intersection, Outline;
    if ts == [] {
      assert ts + rs == rs;
    } else {
      assert (ts + rs)[0] == ts[0] && (ts + rs)[1..] == ts[1..] + rs;
      PaintedInTurn(ch, ts[1..], rs, clip, p, OneSubtree(ch, ts[0], clip, p, under));
    }
  }

  lemma KidPaintsAlike(ch: Channels, t: Tree, k: nat, cs: seq<Tree>, p: Point)
    requires ch.Valid() && k < |t.kids| && PaintAlike(ch, [t.kids[k]], cs, p)
    ensures PaintAlike(ch, t.kids, KidEdited(t, k, cs).kids, p)
  {
    hide Painted, ForestOf;
    var before, kid, behind := t.kids[..k], [t.kids[k]], t.kids[k + 1..];
    assert t.kids == before + (kid + behind) && KidEdited(t, k, cs).kids == before + (cs + behind);
    forall clip, under
      ensures Painted(ForestOf(ch, t.kids), clip, p, under) == Painted(ForestOf(ch, KidEdited(t, k, cs).kids), clip, p, under)
    {
      PaintedInTurn(ch, before, kid + behind, clip, p, under);
      PaintedInTurn(ch, before, cs + behind, clip, p, under);
      var on := Painted(ForestOf(ch, before), clip, p, under);
      PaintedInTurn(ch, kid, behind, clip, p, on);
      PaintedInTurn(ch, cs, behind, clip, p, on);
    }
  }

  lemma PaintAlikeIn(ch: Channels, ts: seq<Tree>, rs: seq<Tree>, clip: Rect, p: Point, under: nat)
    requires ch.Valid() && PaintAlike(ch, ts, rs, p)
    ensures PaintedIn(ForestOf(ch, ts), clip, p, under) == PaintedIn(ForestOf(ch, rs), clip, p, under)
  {
    var a, b := Painted(ForestOf(ch, ts), clip, p, under), Painted(ForestOf(ch, rs), clip, p, under);
    assert a == b;
  }

  lemma ParentPaintsAlike(ch: Channels, t: Tree, r: Tree, p: Point)
    requires ch.Valid() && t.geo == r.geo && PaintAlike(ch, t.kids, r.kids, p)
    ensures PaintAlike(ch, [t], [r], p)
  {
    hide MapRgba, Intersection, Outline, ForestOf, PaintedIn;
    forall clip, under
      ensures Painted(ForestOf(ch, [t]), clip, p, under) == Painted(ForestOf(ch, [r]), clip, p, under)
    {
      PaintedOne(ch, t, clip, p, under);
      PaintedOne(ch, r, clip, p, under);
      PaintAlikeIn(ch, t.kids, r.kids, Intersection(clip, t.geo.Content()), p,
                   if clip.Contains(p) && p in Outline(t.geo) then MapRgba(ch, t.geo.color) else under);
    }
  }

  /** An edit that leaves the painting of a pixel alike where it is made leaves it alike in the whole
      drawing. */
  lemma {:induction false} EditedPaintsAlike(ch: Channels, t: Tree, path: seq<nat>, cs: seq<Tree>, p: Point)
    requires ch.Valid() && path != [] && On(t, path) && PaintAlike(ch, [TreeAt(t, path)], cs, p)
    ensures PaintAlike(ch, t.kids, Edited(t, path, cs).kids, p)
  {
    hide PaintAlike;
    var above, k := path[..|path| - 1], path[|path| - 1];
    var u := TreeAt(t, above);
    KidPaintsAlike(ch, u, k, cs, p);
    if above != [] {
      ParentPaintsAlike(ch, u, KidEdited(u, k, cs), p);
      EditedPaintsAlike(ch, t, above, [KidEdited(u, k, cs)], p);
    }
  }

  lemma EditedDrawsAlike(ch: Channels, t: Tree, path: seq<nat>, cs: seq<Tree>, window: Size, p: Point)
    requires ch.Valid() && path != [] && On(t, path) && PaintAlike(ch, [TreeAt(t, path)], cs, p)
    ensures DrawnTree(ch, t, window, p) == DrawnTree(ch, Edited(t, path, cs), window, p)
  {
    hide MapRgba, Outline, ForestOf, Edited, PaintedIn, PaintAlike;
    KeepsTop(t, path, cs);
    EditedPaintsAlike(ch, t, path, cs, p);
    var info := InfoFrom(ch, t.geo);
    PaintAlikeIn(ch, t.kids, Edited(t, path, cs).kids, WindowRect(window), p,
                 if info.Reach(WindowRect(window)).Contains(p) && p in info.outline then info.ink else 0);
  }

  ghost predicate AllConsistent(ts: seq<Tree>, content: Rect) {
    forall i | 0 <= i < |ts| :: Consistent(ts[i], content)
  }

  /** An edit that keeps the equations where it is made keeps them in the whole tree. */
  lemma {:induction false} EditedConsistent(t: Tree, path: seq<nat>, cs: seq<Tree>)
    requires path != [] && On(t, path)
    requires Consistent(TreeAt(t, path), ContentAbove(t, path)) ==> AllConsistent(cs, ContentAbove(t, path))
    ensures KidsConsistent(t) ==> KidsConsistent(Edited(t, path, cs))
  {
    hide Geo.Settled, Geo.Fits;
    var above, k := path[..|path| - 1], path[|path| - 1];
    var u := TreeAt(t, above);
    assert KidsConsistent(u) ==> KidsConsistent(KidEdited(u, k, cs));
    if above != [] {
      EditedConsistent(t, above, [KidEdited(u, k, cs)]);
    }
  }

  // ----- commands -----

  /** What a session is about: the widgets, the list, and the pick surface by pixels of the window. */
  datatype Screen = Screen(tree: Tree, list: seq<Rect>, pick: map<Point, nat>)

  /** Creating a widget as the `k`th child of the one at a path, placing or destroying the widget at a path,
      or processing the list. */
  datatype Command = CreateAt(path: seq<nat>, k: nat, g: Geo)
                   | PlaceAt(path: seq<nat>, a: Placing)
                   | DestroyAt(path: seq<nat>)
                   | Redraw

  /** The command names a parent for a new widget, which is not managed, or a widget other than the root. */
  predicate Names(c: Command, t: Tree) {
    match c
    case CreateAt(path, k, g) => On(t, path) && k <= |TreeAt(t, path).kids| && !g.mapped
    case PlaceAt(path, a) => path != [] && On(t, path)
    case DestroyAt(path) => path != [] && On(t, path)
    case Redraw => true
  }

  ghost function Done(ch: Channels, window: Size, s: Screen, c: Command): Screen
    requires ch.Valid() && Names(c, s.tree)
  {
    match c
    case CreateAt(path, k, g) => s.(tree := Inserted(s.tree, path, k, Tree(g, [])))
    case PlaceAt(path, a) =>
      var m, parent := Managed(TreeAt(s.tree, path), a), ContentAbove(s.tree, path);
      Screen(Edited(s.tree, path, [Layout.Run(m, parent, window)]), Listed(m, parent, window, s.list), s.pick)
    case DestroyAt(path) =>
      Screen(Edited(s.tree, path, []), ListedByDestroyingTree(TreeAt(s.tree, path), window, s.list), s.pick)
    case Redraw =>
      Screen(s.tree, [], map p | p in s.pick ::
        Redrawn(InfoFrom(ch, s.tree.geo), ForestOf(ch, s.tree.kids), s.list, p, s.pick[p]))
  }

  /** The command lists every pixel it repaints. */
  ghost predicate ListsAll(window: Size, s: Screen, c: Command)
    requires Names(c, s.tree)
  {
    match c
    case CreateAt(path, k, g) => true
    case PlaceAt(path, a) => AllListed(TreeAt(s.tree, path), a, ContentAbove(s.tree, path), window, s.list)
    case DestroyAt(path) => AllListedByDestroying(TreeAt(s.tree, path), window, s.list)
    case Redraw => true
  }

  /** A widget that is placed is ready for it. */
  predicate HasRoom(window: Size, s: Screen, c: Command)
    requires Names(c, s.tree)
  {
    c.PlaceAt? ==> ReadyFor(Managed(TreeAt(s.tree, c.path), c.a), ContentAbove(s.tree, c.path), window)
  }

  /** Every pixel of the window at which the pick surface does not show the tree is listed. */
  ghost predicate WrongIsListed(ch: Channels, window: Size, s: Screen)
    requires ch.Valid()
  {
    s.pick.Keys == PixelsOf(WindowRect(window)) && AllWithin(s.list, window)
    && forall p | p in s.pick && !Covers(s.list, p) :: s.pick[p] == DrawnTree(ch, s.tree, window, p)
  }

  /** What a session keeps: wrong pixels are listed, every managed widget is where it belongs, and the
      root covers the window. */
  ghost predicate InOrder(ch: Channels, window: Size, s: Screen)
    requires ch.Valid()
  {
    WrongIsListed(ch, window, s) && KidsConsistent(s.tree) && CoversWindow(s.tree.geo, window)
  }

  lemma {:induction false} InsertedPaintsAlike(ch: Channels, t: Tree, k: nat, c: Tree, p: Point)
    requires ch.Valid() && k <= |t.kids| && !c.geo.mapped
    ensures PaintAlike(ch, t.kids, KidInserted(t, k, c).kids, p)
  {
    hide Painted, ForestOf, Outline;
    var before, behind := t.kids[..k], t.kids[k..];
    assert t.kids == before + ([] + behind) && KidInserted(t, k, c).kids == before + ([c] + behind);
    MissedPaintsAlike(ch, c, p);
    forall clip, under
      ensures Painted(ForestOf(ch, t.kids), clip, p, under) == Painted(ForestOf(ch, KidInserted(t, k, c).kids), clip, p, under)
    {
      PaintedInTurn(ch, before, [] + behind, clip, p, under);
      PaintedInTurn(ch, before, [c] + behind, clip, p, under);
      var on := Painted(ForestOf(ch, before), clip, p, under);
      PaintedInTurn(ch, [], behind, clip, p, on);
      PaintedInTurn(ch, [c], behind, clip, p, on);
    }
  }

  lemma CreateDrawsAlike(ch: Channels, t: Tree, path: seq<nat>, k: nat, c: Tree, window: Size, p: Point)
    requires ch.Valid() && On(t, path) && k <= |TreeAt(t, path).kids| && !c.geo.mapped
    ensures DrawnTree(ch, t, window, p) == DrawnTree(ch, Inserted(t, path, k, c), window, p)
  {
    hide MapRgba, Outline, ForestOf, Edited, PaintedIn, PaintAlike;
    var u := TreeAt(t, path);
    InsertedPaintsAlike(ch, u, k, c, p);
    if path == [] {
      var info := InfoFrom(ch, t.geo);
      PaintAlikeIn(ch, t.kids, KidInserted(t, k, c).kids, WindowRect(window), p,
                   if info.Reach(WindowRect(window)).Contains(p) && p in info.outline then info.ink else 0);
    } else {
      ParentPaintsAlike(ch, u, KidInserted(u, k, c), p);
      EditedDrawsAlike(ch, t, path, [KidInserted(u, k, c)], window, p);
    }
  }

  lemma CreateKeeps(ch: Channels, window: Size, s: Screen, path: seq<nat>, k: nat, g: Geo)
    requires ch.Valid() && Names(CreateAt(path, k, g), s.tree) && WrongIsListed(ch, window, s)
    ensures var d := Done(ch, window, s, CreateAt(path, k, g));
            && WrongIsListed(ch, window, d) && d.tree.geo == s.tree.geo
            && (KidsConsistent(s.tree) ==> KidsConsistent(d.tree))
  {
    hide Covers, AllWithin, DrawnTree, Edited, MapRgba, Geo.Settled, Geo.Fits;
    var u, v := TreeAt(s.tree, path), KidInserted(TreeAt(s.tree, path), k, Tree(g, []));
    forall p | p in s.pick && !Covers(s.list, p)
      ensures s.pick[p] == DrawnTree(ch, Inserted(s.tree, path, k, Tree(g, [])), window, p)
    {
      CreateDrawsAlike(ch, s.tree, path, k, Tree(g, []), window, p);
    }
    assert KidsConsistent(u) ==> KidsConsistent(v);
    if path != [] {
      KeepsTop(s.tree, path, [v]);
      EditedConsistent(s.tree, path, [v]);
    }
  }

  lemma PlaceKeeps(ch: Channels, window: Size, s: Screen, path: seq<nat>, a: Placing)
    requires ch.Valid() && Names(PlaceAt(path, a), s.tree) && ListsAll(window, s, PlaceAt(path, a)) && WrongIsListed(ch, window, s)
    ensures var d := Done(ch, window, s, PlaceAt(path, a)); WrongIsListed(ch, window, d) && d.tree.geo == s.tree.geo
  {
    hide AllListed, Listed, Layout.Run, Covers, AllWithin, Managed, DrawnTree, Edited, AlikeAt, MapRgba;
    var t, parent := TreeAt(s.tree, path), ContentAbove(s.tree, path);
    var r, list := Layout.Run(Managed(t, a), parent, window), Listed(Managed(t, a), parent, window, s.list);
    ListedWithin(Managed(t, a), parent, window, s.list);
    PlacementAlikeUnlisted(t, a, parent, window, s.list);
    KeepsTop(s.tree, path, [r]);
    forall p | p in s.pick && !Covers(list, p)
      ensures s.pick[p] == DrawnTree(ch, Edited(s.tree, path, [r]), window, p)
    {
      AlikePaintAlike(ch, t, r, p);
      EditedDrawsAlike(ch, s.tree, path, [r], window, p);
    }
  }

  lemma AlikePaintAlike(ch: Channels, t: Tree, r: Tree, p: Point)
    requires ch.Valid() && AlikeAt(t, r, p)
    ensures PaintAlike(ch, [t], [r], p)
  {
    hide Painted, ForestOf, AlikeAt;
    forall clip, under
      ensures Painted(ForestOf(ch, [t]), clip, p, under) == Painted(ForestOf(ch, [r]), clip, p, under)
    {
      AlikePaintsAlike(ch, [t], [r], clip, p, under);
    }
  }

  lemma DestroyKeeps(ch: Channels, window: Size, s: Screen, path: seq<nat>)
    requires ch.Valid() && Names(DestroyAt(path), s.tree) && ListsAll(window, s, DestroyAt(path)) && WrongIsListed(ch, window, s)
    ensures var d := Done(ch, window, s, DestroyAt(path)); WrongIsListed(ch, window, d) && d.tree.geo == s.tree.geo
  {
    hide ListedByDestroyingTree, Covers, AllWithin, DrawnTree, Edited, MapRgba, Misses;
    var t := TreeAt(s.tree, path);
    DestroyingLists(t, window, s.list);
    KeepsTop(s.tree, path, []);
    forall p | p in s.pick && !Covers(ListedByDestroyingTree(t, window, s.list), p)
      ensures s.pick[p] == DrawnTree(ch, Edited(s.tree, path, []), window, p)
    {
      MissedPaintsAlike(ch, t, p);
      EditedDrawsAlike(ch, s.tree, path, [], window, p);
    }
  }

  lemma MissedPaintsAlike(ch: Channels, t: Tree, p: Point)
    requires ch.Valid() && Misses(t.geo, p)
    ensures PaintAlike(ch, [t], [], p)
  {
    hide OneSubtree, Misses;
    forall clip, under
      ensures Painted(ForestOf(ch, [t]), clip, p, under) == Painted(ForestOf(ch, []), clip, p, under)
    {
      MissedIsUnpainted(ch, t, clip, p, under);
      PaintedOne(ch, t, clip, p, under);
    }
  }

  lemma RedrawShows(ch: Channels, window: Size, s: Screen)
    requires ch.Valid() && WrongIsListed(ch, window, s) && CoversWindow(s.tree.geo, window)
    ensures var d := Done(ch, window, s, Redraw);
            WrongIsListed(ch, window, d) && forall p | p in d.pick :: d.pick[p] == DrawnTree(ch, s.tree, window, p)
  {
    hide MapRgba, Outline, Redrawn, Drawn;
    var info, forest := InfoFrom(ch, s.tree.geo), ForestOf(ch, s.tree.kids);
    ForestIsClipped(ch, s.tree.kids);
    forall p | p in s.pick
      ensures Redrawn(info, forest, s.list, p, s.pick[p]) == DrawnTree(ch, s.tree, window, p)
    {
      RedrawnListed(info, forest, s.list, WindowRect(window), p, s.pick[p], 0);
    }
  }

  /** Every command that lists all it repaints keeps the session in order. */
  lemma CommandKeeps(ch: Channels, window: Size, s: Screen, c: Command)
    requires ch.Valid() && Names(c, s.tree) && ListsAll(window, s, c) && HasRoom(window, s, c) && InOrder(ch, window, s)
    ensures InOrder(ch, window, Done(ch, window, s, c))
  {
    hide WrongIsListed, Consistent, ReadyFor, AllListed, AllListedByDestroying, Edited, Layout.Run, Managed, CoversWindow;
    match c {
      case CreateAt(path, k, g) =>
        CreateKeeps(ch, window, s, path, k, g);
      case PlaceAt(path, a) =>
        PlaceKeeps(ch, window, s, path, a);
        IncrementalIsFull(Managed(TreeAt(s.tree, path), a), ContentAbove(s.tree, path), window);
        EditedConsistent(s.tree, path, [Layout.Run(Managed(TreeAt(s.tree, path), a), ContentAbove(s.tree, path), window)]);
      case DestroyAt(path) =>
        DestroyKeeps(ch, window, s, path);
        EditedConsistent(s.tree, path, []);
      case Redraw =>
        RedrawShows(ch, window, s);
    }
  }

  // ----- runs -----

  /** Each command of the run names a widget, lists all it repaints, and has room. */
  ghost predicate Lawful(ch: Channels, window: Size, s: Screen, cs: seq<Command>)
    requires ch.Valid()
    decreases |cs|
  {
    cs != [] ==>
      Names(cs[0], s.tree) && ListsAll(window, s, cs[0]) && HasRoom(window, s, cs[0])
      && Lawful(ch, window, Done(ch, window, s, cs[0]), cs[1..])
  }

  ghost function AllDone(ch: Channels, window: Size, s: Screen, cs: seq<Command>): Screen
    requires ch.Valid() && Lawful(ch, window, s, cs)
    decreases |cs|
  {
    if cs == [] then s else AllDone(ch, window, Done(ch, window, s, cs[0]), cs[1..])
  }

  /** In every session, however long, wrong pixels are listed and every managed widget is where it belongs;
      and whenever the list is processed, the pick surface shows the tree. */
  lemma {:induction false} EverySession(ch: Channels, window: Size, s: Screen, cs: seq<Command>)
    requires ch.Valid() && InOrder(ch, window, s) && Lawful(ch, window, s, cs)
    ensures var d := AllDone(ch, window, s, cs);
            && InOrder(ch, window, d)
            && var r := Done(ch, window, d, Redraw); forall p | p in r.pick :: r.pick[p] == DrawnTree(ch, d.tree, window, p)
    decreases |cs|
  {
    hide InOrder, Done, ListsAll, HasRoom;
    if cs == [] {
      RedrawEnds(ch, window, s);
    } else {
      CommandKeeps(ch, window, s, cs[0]);
      EverySession(ch, window, Done(ch, window, s, cs[0]), cs[1..]);
    }
  }

  lemma RedrawEnds(ch: Channels, window: Size, s: Screen)
    requires ch.Valid() && InOrder(ch, window, s)
    ensures var r := Done(ch, window, s, Redraw); forall p | p in r.pick :: r.pick[p] == DrawnTree(ch, s.tree, window, p)
  {
    hide Done, WrongIsListed, CoversWindow;
    RedrawShows(ch, window, s);
  }
}
