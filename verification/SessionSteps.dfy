/** Sessions on the widgets themselves: creating, placing, destroying and redrawing are commands of `Sessions` on
    the tree that the pointers spell out. */
module SessionSteps {
  import opened Geometry
  import opened Pixels
  import opened Picture
  import opened WidgetTree
  import opened Invalidation
  import opened Hierarchy
  import opened Destroying
  import opened Placement
  import opened Layout
  import opened Placer
  import opened Drawing
  import opened Repainting
  import opened DestroyedWidgets
  import opened Sessions
  import ChildLists
  import Toplevels
  import Removal

  // ----- paths -----

  ghost predicate HasParent(kids: map<Widget, seq<Widget>>, w: Widget)
    reads w`parent
  {
    w.parent != null && w.parent in kids && w in kids[w.parent] && w.parent.pickId < w.pickId
  }

  ghost function IndexOf(s: seq<Widget>, w: Widget): (k: nat)
    requires w in s
    ensures k < |s| && s[k] == w
  {
    if s[0] == w then 0 else 1 + IndexOf(s[1..], w)
  }

  /** The child numbers on the way from the root to a widget. */
  ghost function PathIn(kids: map<Widget, seq<Widget>>, root: Widget, w: Widget): seq<nat>
    reads kids.Keys`parent
    decreases w.pickId
  {
    if w == root || w !in kids || !HasParent(kids, w) then []
    else PathIn(kids, root, w.parent) + [IndexOf(kids[w.parent], w)]
  }

  /** The trees of the children are the children of the trees. */
  ghost predicate NestedIn(kids: map<Widget, seq<Widget>>, trees: map<Widget, Tree>) {
    trees.Keys == kids.Keys
    && forall v | v in kids ::
         && |trees[v].kids| == |kids[v]|
         && forall j | 0 <= j < |kids[v]| :: kids[v][j] in kids && trees[v].kids[j] == trees[kids[v][j]]
  }

  ghost function Trees(app: App): map<Widget, Tree>
    reads app, app.all
    requires app.Valid()
  {
    map v | v in app.all :: TreeOf(app, v)
  }

  lemma TreesNested(app: App)
    requires app.Valid()
    ensures NestedIn(app.kids, Trees(app))
  {
    hide App.Node;
    forall v | v in app.all
      ensures |TreeOf(app, v).kids| == |app.kids[v]|
      ensures forall j | 0 <= j < |app.kids[v]| ::
                app.kids[v][j] in app.all && TreeOf(app, v).kids[j] == TreeOf(app, app.kids[v][j])
    {
      TreeParts(app, v);
      Children(app, v);
    }
  }

  /** The widgets `line` are those from `w` up to the root. */
  ghost predicate Line(kids: map<Widget, seq<Widget>>, line: set<Widget>, root: Widget, w: Widget)
    reads line`parent
  {
    w in line && root in line && line <= kids.Keys
    && (forall x | x in line :: x.pickId <= w.pickId)
    && forall x | x in line && x != root ::
         HasParent(kids, x) && x.parent in line && forall y | y in kids[x.parent] && y in line :: y == x
  }

  /** The path leads to the widget. */
  lemma {:induction false} PathLeads(kids: map<Widget, seq<Widget>>, line: set<Widget>, root: Widget, w: Widget,
                                     v: Widget, trees: map<Widget, Tree>)
    requires Line(kids, line, root, w) && v in line && NestedIn(kids, trees)
    ensures var path := PathIn(kids, root, v); On(trees[root], path) && TreeAt(trees[root], path) == trees[v]
    decreases v.pickId
  {
    if v != root {
      PathLeads(kids, line, root, w, v.parent, trees);
      var path, k := PathIn(kids, root, v.parent), IndexOf(kids[v.parent], v);
      assert (path + [k])[..|path|] == path;
    }
  }

  /** In the tree of the parent, the trees `cs` have taken the place of that of `v`. */
  ghost predicate Joined(kids: map<Widget, seq<Widget>>, before: map<Widget, Tree>, after: map<Widget, Tree>, v: Widget,
                         cs: seq<Tree>)
    reads v`parent
  {
    HasParent(kids, v) && v.parent in before && v.parent in after
    && IndexOf(kids[v.parent], v) < |before[v.parent].kids|
    && after[v.parent] == KidEdited(before[v.parent], IndexOf(kids[v.parent], v), cs)
  }

  /** A change that goes up the line from a widget is an edit at its path. */
  lemma {:induction false} ClimbEdited(kids: map<Widget, seq<Widget>>, line: set<Widget>, root: Widget, w: Widget, v: Widget,
                                       before: map<Widget, Tree>, after: map<Widget, Tree>, cs: seq<Tree>)
    requires Line(kids, line, root, w) && v in line && v != root && NestedIn(kids, before) && root in after
    requires Joined(kids, before, after, v, cs)
    requires forall x {:trigger x.parent} | x in line && x != root && x.pickId < v.pickId ::
               x in after && Joined(kids, before, after, x, [after[x]])
    ensures var path := PathIn(kids, root, v);
            path != [] && On(before[root], path) && after[root] == Edited(before[root], path, cs)
    decreases v.pickId
  {
    var u := v.parent;
    var path, k := PathIn(kids, root, u), IndexOf(kids[u], v);
    PathLeads(kids, line, root, w, u, before);
    PathLeads(kids, line, root, w, v, before);
    assert (path + [k])[..|path|] == path;
    if u != root {
      assert u.parent in line;
      ClimbEdited(kids, line, root, w, u, before, after, [after[u]]);
    }
  }

  ghost function LineOf(app: App, w: Widget, root: Widget): set<Widget>
    reads app, app.all
    requires app.Valid() && w in app.all && root in app.all
  {
    set v | v in app.all && Under(app, w, v) && Under(app, v, root)
  }

  lemma LineFacts(app: App, w: Widget, root: Widget)
    requires app.Valid() && w in app.all && root in app.all && Under(app, w, root)
    ensures Line(app.kids, LineOf(app, w, root), root, w) && root in LineOf(app, w, root)
  {
    hide App.Node;
    var line := LineOf(app, w, root);
    forall x | x in line
      ensures x.pickId <= w.pickId
    {
      UnderIsYounger(app, w, x);
    }
    forall x | x in line && x != root
      ensures HasParent(app.kids, x) && x.parent in line && forall y | y in app.kids[x.parent] && y in line :: y == x
    {
      ParentFacts(app, x);
      assert Under(app, x, x.parent);
      UnderTransitive(app, w, x, x.parent);
      forall y | y in app.kids[x.parent] && y in line
        ensures y == x
      {
        Removal.ParentOf(app, x.parent, y);
        SiblingsApart(app, w, x, y);
      }
    }
  }

  // ----- the screen -----

  ghost function PickOf(app: App): map<Point, nat>
    reads app.pick, app.pick.pixels
    requires app.pick.Valid()
  {
    map p | p in PixelsOf(WindowRect(app.pick.SizeOf())) :: app.pick.Pixel(p)
  }

  ghost function ScreenOf(app: App, root: Widget, list: RectList): Screen
    reads app, app.all, app.pick, app.pick.pixels, list, list.nodes
    requires app.Valid() && app.pick.Valid() && root in app.all
  {
    Screen(TreeOf(app, root), list.Rects(), PickOf(app))
  }

  /** What a session needs: a root above the widgets, no close button, and one window. */
  ghost predicate SessionReady(app: App, root: Widget, list: RectList)
    reads app, app.all, app.pick, app.pick.pixels, list, list.nodes
  {
    CanDraw(app, list) && root in app.all && root.parent == null && app.NoCloseButtons()
    && list.window == app.pick.SizeOf()
  }

  // ----- placing -----

  /** Places a widget; no tree apart from it changes. */
  method PlaceApart(app: App, list: RectList, w: Widget, a: Placing)
    requires app.Valid() && list.Valid() && w in app.all && w.parent != null
    modifies Below(app, w)`screenLocation, Below(app, w)`ownContent, Below(app, w)`drawRect, w`mapped, w`params,
             list, list.nodes
    ensures list.Valid() && forall k | 0 <= k < |list.nodes| :: list.nodes[k] in old(list.nodes) || fresh(list.nodes[k])
    ensures TreeOf(app, w) == Run(Managed(old(TreeOf(app, w)), a), old(ParentContent(w)), list.window)
    ensures list.Rects() == Listed(Managed(old(TreeOf(app, w)), a), old(ParentContent(w)), list.window, old(list.Rects()))
    ensures forall v {:trigger GeoOf(v)} | v in app.all && v !in Below(app, w) :: GeoOf(v) == old(GeoOf(v))
    ensures forall v {:trigger TreeOf(app, v)} | v in app.all && Below(app, v) !! Below(app, w) ::
              TreeOf(app, v) == old(TreeOf(app, v))
  {
    hide TreeOf, Run, Listed, Full, ReadyFor, Consistent, WithArguments, Managed, App.Node, Under,
         RectList.Rects, RectList.Valid;
    BelowSelf(app, w);
    Place(app, list, w, a);
    forall v | v in app.all && Below(app, v) !! Below(app, w)
      ensures TreeOf(app, v) == old(TreeOf(app, v))
    {
      assert forall x | x in Below(app, v) :: x in app.all && unchanged(x);
    }
  }

  /** After a placement, each tree on the line has the new tree of the next in place of the old. */
  lemma PlacedJoins(app: App, w: Widget, root: Widget, x: Widget, before: map<Widget, Tree>)
    requires app.Valid() && w in app.all && root in app.all && NestedIn(app.kids, before)
    requires forall v {:trigger GeoOf(v)} | v in app.all && v !in Below(app, w) :: GeoOf(v) == before[v].geo
    requires forall v {:trigger TreeOf(app, v)} | v in app.all && Below(app, v) !! Below(app, w) :: TreeOf(app, v) == before[v]
    requires x in LineOf(app, w, root) && x != root
    ensures Joined(app.kids, before, Trees(app), x, [TreeOf(app, x)])
  {
    hide App.Node, TreeOf, Below;
    TreesNested(app);
    ParentFacts(app, x);
    var u := x.parent;
    var k := IndexOf(app.kids[u], x);
    BelowParts(app, u, k);
    BelowNarrows(app, w, x);
    var after := Trees(app);
    assert after[u].geo == before[u].geo;
    assert forall j | 0 <= j < |app.kids[u]| && j != k :: after[u].kids[j] == before[u].kids[j];
    assert after[u].kids == before[u].kids[..k] + [after[x]] + before[u].kids[k + 1..];
  }

  lemma BelowNarrows(app: App, w: Widget, x: Widget)
    requires app.Valid() && w in app.all && x in app.all && Under(app, w, x)
    ensures Below(app, w) <= Below(app, x)
  {
    forall y | y in Below(app, w)
      ensures y in Below(app, x)
    {
      UnderTransitive(app, y, w, x);
    }
  }

  lemma AfterPlacing(app: App, w: Widget, root: Widget, before: map<Widget, Tree>)
    requires app.Valid() && w in app.all && root in app.all && Under(app, w, root) && w != root && NestedIn(app.kids, before)
    requires forall v {:trigger GeoOf(v)} | v in app.all && v !in Below(app, w) :: GeoOf(v) == before[v].geo
    requires forall v {:trigger TreeOf(app, v)} | v in app.all && Below(app, v) !! Below(app, w) :: TreeOf(app, v) == before[v]
    ensures var path := PathIn(app.kids, root, w);
            && path != [] && On(before[root], path) && TreeAt(before[root], path) == before[w]
            && TreeOf(app, root) == Edited(before[root], path, [TreeOf(app, w)])
  {
    hide TreeOf, App.Node, Under, Below, Joined, Edited;
    LineFacts(app, w, root);
    var line := LineOf(app, w, root);
    forall x | x in line && x != root
      ensures Joined(app.kids, before, Trees(app), x, [TreeOf(app, x)])
    {
      PlacedJoins(app, w, root, x, before);
    }
    PathLeads(app.kids, line, root, w, w, before);
    ClimbEdited(app.kids, line, root, w, w, before, Trees(app), [TreeOf(app, w)]);
  }

  /** The widget is placed in the content of the one above it on its path. */
  lemma PathStarts(app: App, root: Widget, w: Widget)
    requires app.Valid() && root in app.all && w in app.all && w != root && Under(app, w, root)
    ensures var t, path := TreeOf(app, root), PathIn(app.kids, root, w);
            && w.parent != null && path != [] && On(t, path) && TreeAt(t, path) == TreeOf(app, w)
            && ContentAbove(t, path) == ParentContent(w)
  {
    hide TreeOf, App.Node;
    LineFacts(app, w, root);
    TreesNested(app);
    ParentFacts(app, w);
    var line := LineOf(app, w, root);
    PathLeads(app.kids, line, root, w, w, Trees(app));
    PathLeads(app.kids, line, root, w, w.parent, Trees(app));
    var path := PathIn(app.kids, root, w.parent);
    assert PathIn(app.kids, root, w)[..|path|] == path;
  }

  /** Places a widget, which edits the tree of the root at its path. */
  method PlaceBelow(app: App, root: Widget, list: RectList, w: Widget, a: Placing)
    requires app.Valid() && list.Valid() && root in app.all && w in app.all && w != root && Under(app, w, root)
    modifies Below(app, w)`screenLocation, Below(app, w)`ownContent, Below(app, w)`drawRect, w`mapped, w`params,
             list, list.nodes
    ensures list.Valid() && forall k | 0 <= k < |list.nodes| :: list.nodes[k] in old(list.nodes) || fresh(list.nodes[k])
    ensures var t, path := old(TreeOf(app, root)), old(PathIn(app.kids, root, w));
            && path != [] && On(t, path)
            && var m, parent := Managed(TreeAt(t, path), a), ContentAbove(t, path);
               && TreeOf(app, root) == Edited(t, path, [Layout.Run(m, parent, list.window)])
               && list.Rects() == Listed(m, parent, list.window, old(list.Rects()))
  {
    hide TreeOf, Layout.Run, Listed, App.Node, Under, Below, RectList.Rects, RectList.Valid, Managed, ParentContent, Edited,
         PathIn, On, TreeAt, ContentAbove;
    PathStarts(app, root, w);
    TreesNested(app);
    ghost var before := Trees(app);
    PlaceApart(app, list, w, a);
    AfterPlacing(app, w, root, before);
  }

  /** Placing a widget is the command that places at its path. */
  method PlaceStep(app: App, root: Widget, list: RectList, w: Widget, a: Placing)
    requires SessionReady(app, root, list) && w in app.all && w != root && Under(app, w, root)
    modifies Below(app, w)`screenLocation, Below(app, w)`ownContent, Below(app, w)`drawRect, w`mapped, w`params,
             list, list.nodes
    ensures SessionReady(app, root, list)
    ensures forall k | 0 <= k < |list.nodes| :: list.nodes[k] in old(list.nodes) || fresh(list.nodes[k])
    ensures var c := PlaceAt(old(PathIn(app.kids, root, w)), a);
            && Names(c, old(TreeOf(app, root)))
            && ScreenOf(app, root, list) == Done(app.pick.channels, list.window, old(ScreenOf(app, root, list)), c)
  {
    hide TreeOf, Layout.Run, Listed, App.Node, Under, Below, RectList.Rects, RectList.Valid, Managed, Edited, PathIn, On,
         TreeAt, ContentAbove, App.Nested, App.NoCloseButtons, PickOf;
    PlaceBelow(app, root, list, w, a);
  }

  // ----- destroying -----

  /** What destroying lists, by the tree of the widget. */
  lemma {:induction false} UnmappedFromTrees(app: App, w: Widget, i: nat, window: Size, list: seq<Rect>)
    requires app.Valid() && w in app.all && i <= |app.kids[w]|
    ensures UnmappedFrom(app, w, i, window, list) == ListedByFreeingAll(KidTrees(app, w)[i..], window, list)
    decreases app.widId - w.pickId, |app.kids[w]| - i
  {
    hide Invalidated;
    if i < |app.kids[w]| {
      ChildFacts(app, w, i);
      Children(app, w);
      var c := app.kids[w][i];
      var ts := KidTrees(app, w)[i..];
      assert ts[0] == TreeOf(app, c) && ts[1..] == KidTrees(app, w)[i + 1..];
      TreeParts(app, c);
      assert KidTrees(app, c)[0..] == KidTrees(app, c);
      UnmappedFromTrees(app, c, 0, window, list);
      UnmappedFromTrees(app, w, i + 1, window, Unmapped(c, window, UnmappedFrom(app, c, 0, window, list)));
    }
  }

  lemma ListedByDestroyingTrees(app: App, w: Widget, window: Size, list: seq<Rect>)
    requires app.Valid() && w in app.all
    ensures ListedByDestroying(app, w, window, list) == ListedByDestroyingTree(TreeOf(app, w), window, list)
  {
    hide Invalidated, UnmappedFrom, ListedByFreeingAll;
    TreeParts(app, w);
    assert KidTrees(app, w)[0..] == KidTrees(app, w);
    UnmappedFromTrees(app, w, 0, window, Invalidated(list, w.screenLocation, window));
  }

  /** A child points to its parent, is younger, and is listed once. */
  ghost predicate Growing(kids: map<Widget, seq<Widget>>, bound: nat)
    reads set v, c | v in kids && c in kids[v] :: c`parent
  {
    (forall v | v in kids :: NoDuplicates(kids[v]))
    && forall v, c | v in kids && c in kids[v] :: c.parent == v && v.pickId < c.pickId < bound
  }

  /** `rest` is what `kids` leaves without `w` and what is below it; `before` and `after` are the trees. */
  ghost predicate Rest(kids: map<Widget, seq<Widget>>, rest: map<Widget, seq<Widget>>, w: Widget,
                       before: map<Widget, Tree>, after: map<Widget, Tree>)
  {
    && NestedIn(kids, before) && NestedIn(rest, after)
    && forall v | v in rest :: v in kids && rest[v] == ChildLists.Without(kids[v], w) && after[v].geo == before[v].geo
  }

  /** A tree without the destroyed widget stays as it is. */
  lemma {:induction false} KeptBelow(kids: map<Widget, seq<Widget>>, rest: map<Widget, seq<Widget>>, line: set<Widget>,
      root: Widget, w: Widget, before: map<Widget, Tree>, after: map<Widget, Tree>, bound: nat, v: Widget)
    requires Line(kids, line, root, w) && root.parent == null && Growing(kids, bound) && Rest(kids, rest, w, before, after)
    requires v in rest && v !in line
    ensures after[v] == before[v]
    decreases if v.pickId < bound then bound - v.pickId else 0
  {
    hide ChildLists.Without;
    ChildLists.WithoutDistinct(kids[v], w);
    forall j | 0 <= j < |kids[v]|
      ensures after[v].kids[j] == before[v].kids[j]
    {
      var c := kids[v][j];
      assert c in kids[v];
      KeptBelow(kids, rest, line, root, w, before, after, bound, c);
    }
    assert after[v].kids == before[v].kids;
  }

  lemma IsEdited(before: Tree, after: Tree, k: nat, cs: seq<Tree>)
    requires k < |before.kids| && after.geo == before.geo && |after.kids| == |before.kids| - 1 + |cs|
    requires forall j | 0 <= j < k :: after.kids[j] == before.kids[j]
    requires forall j | k <= j < k + |cs| :: after.kids[j] == cs[j - k]
    requires forall j | k + |cs| <= j < |after.kids| :: after.kids[j] == before.kids[j - |cs| + 1]
    ensures after == KidEdited(before, k, cs)
  {
    assert after.kids == before.kids[..k] + cs + before.kids[k + 1..];
  }

  /** The siblings of a widget on the line keep their trees. */
  lemma SiblingsKept(kids: map<Widget, seq<Widget>>, rest: map<Widget, seq<Widget>>, line: set<Widget>,
      root: Widget, w: Widget, before: map<Widget, Tree>, after: map<Widget, Tree>, bound: nat, x: Widget)
    requires Line(kids, line, root, w) && root.parent == null && Growing(kids, bound) && Rest(kids, rest, w, before, after)
    requires x in line && x != root && x.parent in rest
    ensures forall j | 0 <= j < |kids[x.parent]| && j != IndexOf(kids[x.parent], x) && kids[x.parent][j] in rest ::
              after[kids[x.parent][j]] == before[x.parent].kids[j]
  {
    var u := x.parent;
    forall j | 0 <= j < |kids[u]| && j != IndexOf(kids[u], x) && kids[u][j] in rest
      ensures after[kids[u][j]] == before[u].kids[j]
    {
      assert kids[u][j] in kids[u];
      KeptBelow(kids, rest, line, root, w, before, after, bound, kids[u][j]);
    }
  }

  /** The tree of the parent loses the destroyed child. */
  lemma DestroyedJoins(kids: map<Widget, seq<Widget>>, rest: map<Widget, seq<Widget>>, line: set<Widget>,
      root: Widget, w: Widget, before: map<Widget, Tree>, after: map<Widget, Tree>, bound: nat)
    requires Line(kids, line, root, w) && root.parent == null && Growing(kids, bound) && Rest(kids, rest, w, before, after)
    requires w != root && w.parent in rest
    ensures Joined(kids, before, after, w, [])
  {
    hide ChildLists.Without;
    SiblingsKept(kids, rest, line, root, w, before, after, bound, w);
    var u := w.parent;
    var k := IndexOf(kids[u], w);
    ChildLists.WithoutIsRemoved(kids[u], k);
    forall j | 0 <= j < |rest[u]|
      ensures after[u].kids[j] == before[u].kids[if j < k then j else j + 1]
    {
      assert rest[u][j] == kids[u][if j < k then j else j + 1];
    }
    IsEdited(before[u], after[u], k, []);
  }

  /** The tree of any other parent on the line gets the new tree of the next in place of the old. */
  lemma KeptJoins(kids: map<Widget, seq<Widget>>, rest: map<Widget, seq<Widget>>, line: set<Widget>,
      root: Widget, w: Widget, before: map<Widget, Tree>, after: map<Widget, Tree>, bound: nat, x: Widget)
    requires Line(kids, line, root, w) && root.parent == null && Growing(kids, bound) && Rest(kids, rest, w, before, after)
    requires x in line && x != root && x != w && x.parent in rest && x in rest
    ensures Joined(kids, before, after, x, [after[x]])
  {
    hide ChildLists.Without;
    SiblingsKept(kids, rest, line, root, w, before, after, bound, x);
    ChildLists.WithoutDistinct(kids[x.parent], w);
    SameKidsJoin(kids, rest, line, root, w, before, after, x);
  }

  lemma SameKidsJoin(kids: map<Widget, seq<Widget>>, rest: map<Widget, seq<Widget>>, line: set<Widget>, root: Widget,
      w: Widget, before: map<Widget, Tree>, after: map<Widget, Tree>, x: Widget)
    requires Line(kids, line, root, w) && NestedIn(kids, before) && NestedIn(rest, after)
    requires x in line && x != root && x.parent in rest && x in rest
    requires rest[x.parent] == kids[x.parent] && after[x.parent].geo == before[x.parent].geo
    requires forall j | 0 <= j < |kids[x.parent]| && j != IndexOf(kids[x.parent], x) && kids[x.parent][j] in rest ::
               after[kids[x.parent][j]] == before[x.parent].kids[j]
    ensures Joined(kids, before, after, x, [after[x]])
  {
    var u := x.parent;
    var k := IndexOf(kids[u], x);
    assert HasParent(kids, x) && u in before && |before[u].kids| == |kids[u]| == |after[u].kids|;
    assert after[u].kids[k] == after[x];
    assert forall j | 0 <= j < |kids[u]| && j != k :: after[u].kids[j] == before[u].kids[j];
    hide NestedIn, Line, KidEdited;
    IsEdited(before[u], after[u], k, [after[x]]);
  }

  lemma TreeGrows(app: App)
    requires app.Valid()
    ensures Growing(app.kids, app.widId)
  {
    Toplevels.ListsAreClosed(app);
    forall v | v in app.kids
      ensures NoDuplicates(app.kids[v])
    {
      assert app.Node(v);
    }
    forall v, c | v in app.kids && c in app.kids[v]
      ensures c.parent == v && v.pickId < c.pickId < app.widId
    {
      var i :| 0 <= i < |app.kids[v]| && app.kids[v][i] == c;
      ChildFacts(app, v, i);
    }
  }

  /** Everything on the line but the destroyed widget stays. */
  lemma LineStays(app: App, root: Widget, w: Widget)
    requires app.Valid() && root in app.all && w in app.all && w != root && Under(app, w, root)
    ensures forall v | v in LineOf(app, w, root) && v != w :: !ChildLists.UnderIn(Toplevels.ListsOf(app), v, w)
  {
    hide App.Node, Toplevels.ListsOf, ChildLists.UnderIn;
    forall v | v in LineOf(app, w, root) && v != w
      ensures !ChildLists.UnderIn(Toplevels.ListsOf(app), v, w)
    {
      Removal.UnderAgrees(app, v, w);
      UnderIsYounger(app, w, v);
      if Under(app, v, w) {
        UnderIsYounger(app, v, w);
        assert false;
      }
    }
  }

  lemma AfterDestroying(app: App, root: Widget, w: Widget, kids: map<Widget, seq<Widget>>, line: set<Widget>,
                        before: map<Widget, Tree>, bound: nat)
    requires app.Valid() && root in app.all && root.parent == null && w != root
    requires Line(kids, line, root, w) && Growing(kids, bound) && NestedIn(kids, before) && before.Keys == kids.Keys
    requires line - {w} <= app.all
    requires forall v {:trigger GeoOf(v)} | v in app.all ::
               v in kids && app.kids[v] == ChildLists.Without(kids[v], w) && GeoOf(v) == before[v].geo
    ensures var path := PathIn(kids, root, w);
            && path != [] && On(before[root], path) && TreeAt(before[root], path) == before[w]
            && TreeOf(app, root) == Edited(before[root], path, [])
  {
    hide TreeOf, App.Node, Under, Growing, NestedIn, PathIn, On, TreeAt, Edited, Joined, ChildLists.Without;
    TreesNested(app);
    var after := Trees(app);
    assert Rest(kids, app.kids, w, before, after) by {
      forall v | v in app.kids
        ensures v in kids && app.kids[v] == ChildLists.Without(kids[v], w) && after[v].geo == before[v].geo
      {
        assert GeoOf(v) == before[v].geo;
      }
    }
    hide Rest;
    DestroyedJoins(kids, app.kids, line, root, w, before, after, bound);
    forall x | x in line && x != root && x.pickId < w.pickId
      ensures x in after && Joined(kids, before, after, x, [after[x]])
    {
      KeptJoins(kids, app.kids, line, root, w, before, after, bound, x);
    }
    PathLeads(kids, line, root, w, w, before);
    ClimbEdited(kids, line, root, w, w, before, after, []);
  }

  /** Destroys a widget, which takes its tree out of that of the root. */
  method DestroyBelow(app: App, root: Widget, list: RectList, w: Widget)
    requires app.Valid() && list.Valid() && root in app.all && root.parent == null
    requires w in app.all && w != root && Under(app, w, root)
    modifies app`all, app`kids, app.all`childrenHead, app.all`childrenTail, app.all`nextSibling, list, list.nodes
    ensures app.Valid() && root in app.all && app.all <= old(app.all)
    ensures list.Valid() && forall k | 0 <= k < |list.nodes| :: list.nodes[k] in old(list.nodes) || fresh(list.nodes[k])
    ensures var t, path := old(TreeOf(app, root)), old(PathIn(app.kids, root, w));
            && path != [] && On(t, path)
            && TreeOf(app, root) == Edited(t, path, [])
            && list.Rects() == ListedByDestroyingTree(TreeAt(t, path), list.window, old(list.Rects()))
    ensures Toplevels.ListsOf(app) == ChildLists.Destroyed(old(Toplevels.ListsOf(app)), w)
  {
    hide TreeOf, App.Node, Under, ChildLists.UnderIn, ChildLists.Without, RectList.Rects, RectList.Valid, Growing, NestedIn,
         PathIn, On, TreeAt, Edited, ListedByDestroying, ListedByDestroyingTree, Line;
    ghost var kids, line, before, bound := app.kids, LineOf(app, w, root), Trees(app), app.widId;
    LineFacts(app, w, root);
    LineStays(app, root, w);
    TreeGrows(app);
    TreesNested(app);
    ListedByDestroyingTrees(app, w, list.window, list.Rects());
    Removal.DestroyChild(app, list, w);
    assert line - {w} <= app.all;
    assert forall v {:trigger GeoOf(v)} | v in app.all :: GeoOf(v) == before[v].geo;
    assert forall v | v in app.all :: app.kids[v] == ChildLists.Without(kids[v], w);
    AfterDestroying(app, root, w, kids, line, before, bound);
  }

  /** Destroying a widget is the command that destroys at its path. */
  method DestroyStep(app: App, root: Widget, list: RectList, w: Widget)
    requires SessionReady(app, root, list) && w in app.all && w != root && Under(app, w, root)
    modifies app`all, app`kids, app.all`childrenHead, app.all`childrenTail, app.all`nextSibling, list, list.nodes
    ensures SessionReady(app, root, list) && app.all <= old(app.all)
    ensures forall k | 0 <= k < |list.nodes| :: list.nodes[k] in old(list.nodes) || fresh(list.nodes[k])
    ensures var c := DestroyAt(old(PathIn(app.kids, root, w)));
            && Names(c, old(TreeOf(app, root)))
            && ScreenOf(app, root, list) == Done(app.pick.channels, list.window, old(ScreenOf(app, root, list)), c)
    ensures Toplevels.ListsOf(app) == ChildLists.Destroyed(old(Toplevels.ListsOf(app)), w)
  {
    hide TreeOf, App.Node, Under, RectList.Rects, RectList.Valid, PathIn, On, TreeAt, Edited, ListedByDestroyingTree, PickOf,
         App.Valid, Toplevels.ListsOf, ChildLists.Destroyed;
    DestroyBelow(app, root, list, w);
  }

  // ----- redrawing -----

  /** Drawing the widgets of the tree is drawing the tree. */
  lemma {:induction false} ForestFromTrees(app: App, w: Widget, i: nat)
    requires app.Valid() && app.pick.Valid() && w in app.all && i <= |app.kids[w]| && app.NoCloseButtons()
    ensures app.ForestFrom(w, i) == ForestOf(app.pick.channels, KidTrees(app, w)[i..])
    decreases app.widId - w.pickId, |app.kids[w]| - i
  {
    hide MapRgba;
    if i < |app.kids[w]| {
      ChildFacts(app, w, i);
      Children(app, w);
      var c := app.kids[w][i];
      var ts := KidTrees(app, w)[i..];
      assert ts[0] == TreeOf(app, c) && ts[1..] == KidTrees(app, w)[i + 1..];
      TreeParts(app, c);
      assert KidTrees(app, c)[0..] == KidTrees(app, c);
      ForestFromTrees(app, c, 0);
      ForestFromTrees(app, w, i + 1);
    }
  }

  /** The drawing of the heap's widgets is the drawing of their tree. */
  lemma DrawnFromTree(app: App, root: Widget)
    requires app.Valid() && app.pick.Valid() && root in app.all && root.parent == null && app.NoCloseButtons()
    ensures app.InfoOf(root) == InfoFrom(app.pick.channels, TreeOf(app, root).geo)
    ensures app.ForestFrom(root, 0) == ForestOf(app.pick.channels, TreeOf(app, root).kids)
  {
    hide Drawn, MapRgba;
    ForestFromTrees(app, root, 0);
    TreeParts(app, root);
    assert KidTrees(app, root)[0..] == KidTrees(app, root);
  }

  lemma LaidOutIsStill(app: App, root: Widget)
    requires app.Valid() && root in app.all && KidsConsistent(TreeOf(app, root))
    ensures StillBelow(app, root)
  {
    hide Consistent, Still;
    TreeParts(app, root);
    Children(app, root);
    forall i | 0 <= i < |app.kids[root]|
      ensures Still(TreeOf(app, app.kids[root][i]), root.ContentRect())
    {
      ConsistentIsStill(TreeOf(app, app.kids[root][i]), root.ContentRect());
    }
  }

  /** Processing the list, in a tree where every managed widget is where it belongs, is the command that
      redraws. */
  method RedrawStep(app: App, root: Widget, list: RectList)
    requires SessionReady(app, root, list) && KidsConsistent(TreeOf(app, root)) && AllWithin(list.Rects(), list.window)
    modifies app.pick.pixels
    modifies app.all`screenLocation, app.all`ownContent, app.all`drawRect, list, list.nodes
    ensures SessionReady(app, root, list) && unchanged(app.all) && list.Rects() == []
    ensures ScreenOf(app, root, list) == Done(app.pick.channels, list.window, old(ScreenOf(app, root, list)), Redraw)
  {
    hide TreeOf, App.Node, RectList.Rects, RectList.Valid, Redrawn, StillBelow, App.ForestFrom, ForestOf, KidsConsistent,
         App.Nested, App.Valid;
    ghost var s := ScreenOf(app, root, list);
    ghost var done, below := Done(app.pick.channels, list.window, s, Redraw), Below(app, root);
    LaidOutIsStill(app, root);
    DrawnFromTree(app, root);
    RedrawInvalidated(app, root, list);
    assert forall v | v in below :: v in app.all && unchanged(v);
    assert Below(app, root) == below;
    forall p | p in s.pick
      ensures p in PickOf(app) && PickOf(app)[p] == done.pick[p]
    {
    }
    assert PickOf(app) == done.pick;
    assert TreeOf(app, root) == s.tree && list.Rects() == done.list;
  }

  /** Where wrong pixels are listed and every managed widget is where it belongs, processing the list makes
      the pick surface show the tree. */
  method RedrawInOrder(app: App, root: Widget, list: RectList)
    requires SessionReady(app, root, list) && InOrder(app.pick.channels, list.window, ScreenOf(app, root, list))
    modifies app.pick.pixels
    modifies app.all`screenLocation, app.all`ownContent, app.all`drawRect, list, list.nodes
    ensures SessionReady(app, root, list) && unchanged(app.all) && list.Rects() == [] && ShowsTree(app, root)
    ensures InOrder(app.pick.channels, list.window, ScreenOf(app, root, list)) && TreeOf(app, root) == old(TreeOf(app, root))
  {
    hide TreeOf, App.Node, RectList.Rects, RectList.Valid, App.ForestFrom, ForestOf, App.Nested, App.Valid, Consistent,
         Drawn, Redrawn, Outline;
    ghost var ch, s := app.pick.channels, ScreenOf(app, root, list);
    CommandKeeps(ch, list.window, s, Redraw);
    RedrawEnds(ch, list.window, s);
    RedrawStep(app, root, list);
    DrawnFromTree(app, root);
    ShownByPick(app, root, list.window);
  }

  lemma ShownByPick(app: App, root: Widget, window: Size)
    requires app.Valid() && app.pick.Valid() && root in app.all && root.parent == null && window == app.pick.SizeOf()
    requires app.InfoOf(root) == InfoFrom(app.pick.channels, TreeOf(app, root).geo)
    requires app.ForestFrom(root, 0) == ForestOf(app.pick.channels, TreeOf(app, root).kids)
    requires forall p | p in PickOf(app) :: PickOf(app)[p] == DrawnTree(app.pick.channels, TreeOf(app, root), window, p)
    ensures ShowsTree(app, root)
  {
    hide TreeOf, App.ForestFrom, ForestOf, Drawn;
    forall p | WindowRect(window).Contains(p)
      ensures app.pick.Pixel(p) == Drawn(app.InfoOf(root), app.ForestFrom(root, 0), WindowRect(window), p, 0)
    {
      assert p in PickOf(app);
    }
  }

  /** Placing a widget that is ready for it, if the placement lists every pixel it repaints, and then
      processing the list makes the pick surface show the tree, and keeps the session in order. */
  method PlaceAndRedraw(app: App, root: Widget, list: RectList, w: Widget, a: Placing)
    requires SessionReady(app, root, list) && InOrder(app.pick.channels, list.window, ScreenOf(app, root, list))
    requires w in app.all && w != root && Under(app, w, root) && w.parent != null
    requires AllListed(TreeOf(app, w), a, ParentContent(w), list.window, list.Rects())
    requires ReadyFor(Managed(TreeOf(app, w), a), ParentContent(w), list.window)
    modifies app.all`screenLocation, app.all`ownContent, app.all`drawRect, w`mapped, w`params,
             list, list.nodes, app.pick.pixels
    ensures SessionReady(app, root, list) && list.Rects() == [] && ShowsTree(app, root)
    ensures InOrder(app.pick.channels, list.window, ScreenOf(app, root, list))
    ensures var c := PlaceAt(old(PathIn(app.kids, root, w)), a);
            && Names(c, old(TreeOf(app, root)))
            && TreeOf(app, root) == Done(app.pick.channels, list.window, old(ScreenOf(app, root, list)), c).tree
  {
    hide TreeOf, App.Node, Under, RectList.Rects, RectList.Valid, App.Nested, App.Valid, InOrder, AllListed, ReadyFor, PathIn,
         Edited, On, TreeAt, ContentAbove, Managed, ShowsTree, PickOf;
    PathStarts(app, root, w);
    CommandKeeps(app.pick.channels, list.window, ScreenOf(app, root, list), PlaceAt(PathIn(app.kids, root, w), a));
    PlaceStep(app, root, list, w, a);
    RedrawInOrder(app, root, list);
  }

  /** Destroying a widget, if that lists all it has painted, and then processing the list makes the pick
      surface show the remaining tree, and keeps the session in order. */
  method DestroyAndRedraw(app: App, root: Widget, list: RectList, w: Widget)
    requires SessionReady(app, root, list) && InOrder(app.pick.channels, list.window, ScreenOf(app, root, list))
    requires w in app.all && w != root && Under(app, w, root)
    requires AllListedByDestroying(TreeOf(app, w), list.window, list.Rects())
    modifies app`all, app`kids, app.all`childrenHead, app.all`childrenTail, app.all`nextSibling, list, list.nodes
    modifies app.all`screenLocation, app.all`ownContent, app.all`drawRect, app.pick.pixels
    ensures SessionReady(app, root, list) && list.Rects() == [] && ShowsTree(app, root)
    ensures InOrder(app.pick.channels, list.window, ScreenOf(app, root, list))
    ensures var c := DestroyAt(old(PathIn(app.kids, root, w)));
            && Names(c, old(TreeOf(app, root)))
            && TreeOf(app, root) == Done(app.pick.channels, list.window, old(ScreenOf(app, root, list)), c).tree
    ensures Toplevels.ListsOf(app) == ChildLists.Destroyed(old(Toplevels.ListsOf(app)), w)
  {
    hide TreeOf, App.Node, Under, RectList.Rects, RectList.Valid, App.Nested, App.Valid, InOrder, AllListedByDestroying,
         PathIn, Edited, On, TreeAt, ShowsTree, PickOf, ChildLists.Destroyed;
    PathStarts(app, root, w);
    CommandKeeps(app.pick.channels, list.window, ScreenOf(app, root, list), DestroyAt(PathIn(app.kids, root, w)));
    DestroyStep(app, root, list, w);
    RedrawInOrder(app, root, list);
  }

  // ----- creating -----

  /** `grown` is `kids` with a new widget `c` below `w`, and `before` and `after` are the trees. */
  ghost predicate Grown(kids: map<Widget, seq<Widget>>, grown: map<Widget, seq<Widget>>, w: Widget,
                        before: map<Widget, Tree>, after: map<Widget, Tree>)
  {
    && NestedIn(kids, before) && NestedIn(grown, after)
    && forall v | v in kids :: v in grown && (v != w ==> grown[v] == kids[v]) && after[v].geo == before[v].geo
  }

  /** A tree without the new widget stays as it is. */
  lemma {:induction false} GrownKeeps(kids: map<Widget, seq<Widget>>, grown: map<Widget, seq<Widget>>, line: set<Widget>,
      root: Widget, w: Widget, before: map<Widget, Tree>, after: map<Widget, Tree>, bound: nat, v: Widget)
    requires Line(kids, line, root, w) && root.parent == null && Growing(kids, bound) && Grown(kids, grown, w, before, after)
    requires v in kids && v !in line
    ensures after[v] == before[v]
    decreases if v.pickId < bound then bound - v.pickId else 0
  {
    forall j | 0 <= j < |kids[v]|
      ensures after[v].kids[j] == before[v].kids[j]
    {
      var c := kids[v][j];
      assert c in kids[v];
      GrownKeeps(kids, grown, line, root, w, before, after, bound, c);
    }
    assert after[v].kids == before[v].kids;
  }

  lemma GrownJoins(kids: map<Widget, seq<Widget>>, grown: map<Widget, seq<Widget>>, line: set<Widget>,
      root: Widget, w: Widget, before: map<Widget, Tree>, after: map<Widget, Tree>, bound: nat, x: Widget)
    requires Line(kids, line, root, w) && root.parent == null && Growing(kids, bound) && Grown(kids, grown, w, before, after)
    requires x in line && x != root
    ensures Joined(kids, before, after, x, [after[x]])
  {
    var u := x.parent;
    forall j | 0 <= j < |kids[u]| && j != IndexOf(kids[u], x) && kids[u][j] in grown
      ensures after[kids[u][j]] == before[u].kids[j]
    {
      assert kids[u][j] in kids[u];
      GrownKeeps(kids, grown, line, root, w, before, after, bound, kids[u][j]);
    }
    SameKidsJoin(kids, grown, line, root, w, before, after, x);
  }

  /** The tree of the parent gets the new child. */
  lemma ParentGrows(kids: map<Widget, seq<Widget>>, grown: map<Widget, seq<Widget>>, line: set<Widget>,
      root: Widget, w: Widget, before: map<Widget, Tree>, after: map<Widget, Tree>, bound: nat, k: nat, c: Widget)
    requires Line(kids, line, root, w) && root.parent == null && Growing(kids, bound) && Grown(kids, grown, w, before, after)
    requires k <= |kids[w]| && c in grown && grown[w] == InsertedAt(kids[w], k, c)
    ensures |before[w].kids| == |kids[w]| && after[w] == KidInserted(before[w], k, after[c])
  {
    forall j | 0 <= j < |kids[w]|
      ensures kids[w][j] in after && after[kids[w][j]] == before[w].kids[j]
    {
      assert kids[w][j] in kids[w];
      GrownKeeps(kids, grown, line, root, w, before, after, bound, kids[w][j]);
    }
    forall j | 0 <= j < |grown[w]|
      ensures after[w].kids[j] == KidInserted(before[w], k, after[c]).kids[j]
    {
      assert grown[w][j] == if j < k then kids[w][j] else if j == k then c else kids[w][j - 1];
    }
    assert after[w].kids == KidInserted(before[w], k, after[c]).kids;
  }

  lemma AfterCreating(app: App, root: Widget, w: Widget, kids: map<Widget, seq<Widget>>, line: set<Widget>,
                      before: map<Widget, Tree>, bound: nat, k: nat, c: Widget)
    requires app.Valid() && root in app.all && root.parent == null && w in app.all && c in app.all && app.kids[c] == []
    requires Line(kids, line, root, w) && Growing(kids, bound) && NestedIn(kids, before) && before.Keys == kids.Keys
    requires w in kids && k <= |kids[w]| && app.kids[w] == InsertedAt(kids[w], k, c)
    requires forall v {:trigger GeoOf(v)} | v in kids ::
               v in app.all && (v != w ==> app.kids[v] == kids[v]) && GeoOf(v) == before[v].geo
    ensures var path := PathIn(kids, root, w);
            && On(before[root], path) && TreeAt(before[root], path) == before[w] && |before[w].kids| == |kids[w]|
            && TreeOf(app, root) == Inserted(before[root], path, k, Tree(GeoOf(c), []))
  {
    hide TreeOf, App.Node, Under, Growing, NestedIn, PathIn, On, TreeAt, Edited, Joined, InsertedAt, KidInserted;
    TreesNested(app);
    var after := Trees(app);
    assert Grown(kids, app.kids, w, before, after) by {
      forall v | v in kids
        ensures v in app.kids && (v != w ==> app.kids[v] == kids[v]) && after[v].geo == before[v].geo
      {
        assert GeoOf(v) == before[v].geo;
      }
    }
    LeafTree(app, c);
    hide Grown;
    ParentGrows(kids, app.kids, line, root, w, before, after, bound, k, c);
    PathLeads(kids, line, root, w, w, before);
    if w != root {
      forall x | x in line && x != root
        ensures x in after && Joined(kids, before, after, x, [after[x]])
      {
        GrownJoins(kids, app.kids, line, root, w, before, after, bound, x);
      }
      ClimbEdited(kids, line, root, w, w, before, after, [after[w]]);
    } else {
      RootPath(kids, root);
    }
  }

  lemma RootPath(kids: map<Widget, seq<Widget>>, root: Widget)
    ensures PathIn(kids, root, root) == []
  {
  }

  lemma LeafTree(app: App, c: Widget)
    requires app.Valid() && c in app.all && app.kids[c] == []
    ensures TreeOf(app, c) == Tree(GeoOf(c), [])
  {
    TreeParts(app, c);
    Children(app, c);
  }

  /** Creates a frame or a button, which inserts it in the tree of the root. */
  method CreateBelow(app: App, root: Widget, wclass: WidgetClass, parent: Widget) returns (w: Widget)
    requires app.Valid() && root in app.all && root.parent == null && parent in app.all && Under(app, parent, root)
    requires wclass != ToplevelClass && ChildLists.FindsResize(Toplevels.ListsOf(app), parent)
    modifies app`widId, app`all, app`kids, app.all`childrenHead, app.all`childrenTail, app.all`nextSibling
    ensures app.Valid() && fresh(w) && w.wclass == wclass && app.all == old(app.all) + {w}
    ensures w.parent == parent && w.Unplaced() && !w.noClipping
    ensures var t, path := old(TreeOf(app, root)), old(PathIn(app.kids, root, parent));
            var k := old(ChildLists.PlaceOf(Toplevels.ListsOf(app), parent));
            && On(t, path) && k <= |TreeAt(t, path).kids|
            && TreeOf(app, root) == Inserted(t, path, k, Tree(GeoOf(w), []))
    ensures Toplevels.ListsOf(app) == ChildLists.Created(old(Toplevels.ListsOf(app)), parent, w)
  {
    hide TreeOf, App.Node, Under, PathIn, On, TreeAt, Inserted, ChildLists.PlaceOf, ChildLists.FindsResize, Line, Growing,
         NestedIn, InsertedAt, Widget.Unplaced, App.Valid;
    Toplevels.KnownWidgets(app);
    ghost var kids, line, before, bound := app.kids, LineOf(app, parent, root), Trees(app), app.widId;
    ghost var k := ChildLists.PlaceOf(Toplevels.ListsOf(app), parent);
    LineFacts(app, parent, root);
    TreeGrows(app);
    TreesNested(app);
    w := Toplevels.CreateChild(app, wclass, parent);
    assert forall v {:trigger GeoOf(v)} | v in kids :: GeoOf(v) == before[v].geo;
    AfterCreating(app, root, parent, kids, line, before, bound, k, w);
  }

  /** Creating a frame or a button is the command that creates below the path of its parent. */
  method CreateStep(app: App, root: Widget, list: RectList, wclass: WidgetClass, parent: Widget) returns (w: Widget)
    requires SessionReady(app, root, list) && parent in app.all && Under(app, parent, root)
    requires wclass != ToplevelClass && ChildLists.FindsResize(Toplevels.ListsOf(app), parent)
    modifies app`widId, app`all, app`kids, app.all`childrenHead, app.all`childrenTail, app.all`nextSibling
    ensures SessionReady(app, root, list) && fresh(w) && w.wclass == wclass && app.all == old(app.all) + {w}
    ensures w.parent == parent && w.Unplaced()
    ensures var c := CreateAt(old(PathIn(app.kids, root, parent)), old(ChildLists.PlaceOf(Toplevels.ListsOf(app), parent)),
                              GeoOf(w));
            && Names(c, old(TreeOf(app, root)))
            && ScreenOf(app, root, list) == Done(app.pick.channels, list.window, old(ScreenOf(app, root, list)), c)
    ensures Toplevels.ListsOf(app) == ChildLists.Created(old(Toplevels.ListsOf(app)), parent, w)
  {
    hide TreeOf, App.Node, Under, RectList.Rects, RectList.Valid, PathIn, On, TreeAt, Inserted, PickOf, App.Valid,
         ChildLists.PlaceOf, ChildLists.FindsResize, ChildLists.Created, Toplevels.ListsOf;
    w := CreateBelow(app, root, wclass, parent);
  }
}
