/** Destroying widgets: the lists of children follow the runs of `ChildLists`. */
module Removal {
  import opened WidgetTree
  import opened Invalidation
  import opened Destroying
  import opened ChildLists
  import opened Toplevels

  /** What is below a widget by its pointers is below it by the lists. */
  lemma {:induction false} UnderAgrees(app: App, x: Widget, w: Widget)
    requires app.Valid() && x in app.all
    ensures Under(app, x, w) <==> UnderIn(ListsOf(app), x, w)
    decreases x.pickId
  {
    hide App.Node;
    ListsAreClosed(app);
    if x != w {
      if x.parent != null {
        ParentFacts(app, x);
        UnderAgrees(app, x.parent, w);
      }
      if UnderIn(ListsOf(app), x, w) {
        var p :| p in app.kids && x in app.kids[p] && p.pickId < x.pickId && UnderIn(ListsOf(app), p, w);
        ParentOf(app, p, x);
      }
    }
  }

  lemma ParentOf(app: App, p: Widget, c: Widget)
    requires app.Valid() && p in app.all && c in app.kids[p]
    ensures c in app.all && c.parent == p
  {
    var i :| 0 <= i < |app.kids[p]| && app.kids[p][i] == c;
    ChildFacts(app, p, i);
  }

  lemma FreedIsUnder(app: App, w: Widget)
    requires app.Valid() && w in app.all
    ensures forall p | p in app.all :: p in Elements(Freed(app, w)) <==> UnderIn(ListsOf(app), p, w)
  {
    hide UnderIn, Freed, Under, App.Node;
    DestroyFreesOnce(app, w);
    forall p | p in app.all
      ensures p in Elements(Freed(app, w)) <==> UnderIn(ListsOf(app), p, w)
    {
      UnderAgrees(app, p, w);
    }
  }

  /** Only the parent's list has the widget. */
  lemma OthersKeep(app: App, w: Widget)
    requires app.Valid() && w in app.all
    ensures forall p | p in app.all :: NoDuplicates(app.kids[p]) && (p != w.parent ==> Without(app.kids[p], w) == app.kids[p])
    ensures w.parent != null ==> w.parent in app.all
  {
    hide App.Node, Without;
    ListsAreClosed(app);
    ParentIn(app, w);
    forall p | p in app.all
      ensures NoDuplicates(app.kids[p]) && (p != w.parent ==> Without(app.kids[p], w) == app.kids[p])
    {
      WithoutDistinct(app.kids[p], w);
      if w in app.kids[p] {
        ParentOf(app, p, w);
      }
    }
  }

  lemma RemovesIsWithout(s: seq<Widget>, w: Widget, t: seq<Widget>)
    requires NoDuplicates(s) && Removes(s, w, t)
    ensures t == Without(s, w)
  {
    var k :| 0 <= k < |s| && s[k] == w && t == RemovedAt(s, k);
    WithoutIsRemoved(s, k);
  }

  /** Destroys a widget. */
  method DestroyChild(app: App, list: RectList, w: Widget)
    requires app.Valid() && list.Valid() && w in app.all
    modifies app`all, app`kids, app.all`childrenHead, app.all`childrenTail, app.all`nextSibling, list, list.nodes
    ensures app.Valid() && list.Valid()
    ensures forall k | 0 <= k < |list.nodes| :: list.nodes[k] in old(list.nodes) || fresh(list.nodes[k])
    ensures list.Rects() == old(ListedByDestroying(app, w, list.window, list.Rects()))
    ensures app.all == old(set p | p in app.all && !UnderIn(ListsOf(app), p, w))
    ensures ListsOf(app) == Destroyed(old(ListsOf(app)), w)
  {
    hide UnderIn, Freed, Under, App.Node, Without, Removes, ListedByDestroying, RectList.Valid, RectList.Rects,
         NotifiedFrom;
    ghost var before := ListsOf(app);
    var freed, notified;
    ghost var t;
    OthersKeep(app, w);
    FreedIsUnder(app, w);
    freed, notified, t := DestroyWidget(app, list, w);
    if w.parent != null {
      RemovesIsWithout(before.kids[w.parent], w, t);
    }
    assert app.kids == Destroyed(before, w).kids;
    assert ListsOf(app).toplevels == Destroyed(before, w).toplevels;
    assert ListsOf(app).resizes == Destroyed(before, w).resizes;
  }

  lemma ParentIn(app: App, w: Widget)
    requires app.Valid() && w in app.all
    ensures w.parent != null ==> w.parent in app.all
  {
    assert app.Node(w);
  }
}
