/** Creating and destroying widgets: the linked lists of children, edited in place. */
module Hierarchy {
  import opened WidgetTree

  function InsertedAt(s: seq<Widget>, k: nat, w: Widget): seq<Widget>
    requires k <= |s|
  {
    s[..k] + [w] + s[k..]
  }

  predicate IsResize(w: Widget)
    reads w`isResizeButton
  {
    w.wclass == ButtonClass && w.isResizeButton
  }

  /** The first child from the `i`th on that is a resize button, or the number of children. */
  ghost function FirstResize(s: seq<Widget>, i: nat): (k: nat)
    reads s`isResizeButton
    requires i <= |s|
    ensures i <= k <= |s|
    ensures forall j | i <= j < k :: !IsResize(s[j])
    ensures k < |s| ==> IsResize(s[k])
    decreases |s| - i
  {
    if i == |s| || IsResize(s[i]) then i else FirstResize(s, i + 1)
  }

  predicate ResizableToplevel(p: Widget)
    reads p`resizable
  {
    p.wclass == ToplevelClass && p.resizable
  }

  /** Where a new child goes: at the end, but just before the last child of a resizable toplevel
      that has a single child or whose first resize button is its last child. */
  ghost function InsertIndex(p: Widget, s: seq<Widget>): (k: nat)
    reads p`resizable, s`isResizeButton
    ensures k <= |s|
  {
    if !ResizableToplevel(p) || s == [] then |s|
    else if |s| == 1 then 0
    else if FirstResize(s, 1) == |s| - 1 then |s| - 1
    else |s|
  }

  /** The children of `p` after a create: the new one is the last, except that in a resizable toplevel it goes
      before an only child, and before a last child that is its only resize button behind the first. */
  ghost predicate Joined(p: Widget, s: seq<Widget>, w: Widget, t: seq<Widget>)
    reads p`resizable, s`isResizeButton
  {
    var n := |s|;
    if p.wclass != ToplevelClass || !p.resizable || n == 0 then t == s + [w]
    else if n == 1 then t == [w, s[0]]
    else if IsResize(s[n - 1]) && forall j | 1 <= j < n - 1 :: !IsResize(s[j]) then t == s[..n - 1] + [w, s[n - 1]]
    else t == s + [w]
  }

  lemma InsertJoins(p: Widget, s: seq<Widget>, w: Widget)
    ensures Joined(p, s, w, InsertedAt(s, InsertIndex(p, s), w))
  {
    if |s| >= 2 {
      var n, k := |s|, FirstResize(s, 1);
      assert k < n - 1 ==> IsResize(s[k]);
      assert k == n ==> !IsResize(s[n - 1]);
    }
  }

  /** What `ei_widget_create` demands of a resizable toplevel with several children. */
  ghost predicate HasResize(p: Widget, s: seq<Widget>)
    reads p`resizable, s`isResizeButton
  {
    ResizableToplevel(p) && |s| >= 2 ==> FirstResize(s, 1) < |s|
  }

  /** Creates a widget, as the last child of its parent or just before a last resize button. */
  method CreateWidget(app: App, wclass: WidgetClass, parent: Widget?) returns (w: Widget)
    requires app.Valid() && (parent != null ==> parent in app.all && HasResize(parent, app.kids[parent]))
    modifies app`widId, app`all, app`kids, app.all`childrenHead, app.all`childrenTail, app.all`nextSibling
    ensures app.Valid() && fresh(w) && w.wclass == wclass && w.parent == parent && !w.isResizeButton
    ensures w.resizable == (wclass == ToplevelClass) && !w.noClipping && w.Unplaced()
    ensures w.pickId == old(app.widId) && app.widId == old(app.widId) + 1
    ensures app.all == old(app.all) + {w}
    ensures app.kids == if parent == null then old(app.kids)[w := []]
                        else old(app.kids)[w := []][parent := InsertedAt(old(app.kids[parent]),
                                                                        old(InsertIndex(parent, app.kids[parent])), w)]
    ensures parent != null ==> parent in app.kids && Joined(parent, old(app.kids[parent]), w, app.kids[parent])
  {
    w := new Widget(wclass, app.widId, parent);
    if parent == null {
      AddRoot(app, w);
    } else {
      assert app.Node(parent);
      ghost var k := Link(app, parent, w);
      InsertJoins(parent, app.kids[parent], w);
      AddChild(app, parent, w, k);
    }
  }

  method AddRoot(app: App, w: Widget)
    requires app.Valid() && w !in app.all && w.parent == null && w.pickId == app.widId && w.pickColor == PickColor(w.pickId)
    requires w.childrenHead == null && w.childrenTail == null
    modifies app`widId, app`all, app`kids
    ensures app.Valid() && app.widId == old(app.widId) + 1
    ensures app.all == old(app.all) + {w} && app.kids == old(app.kids)[w := []]
  {
    hide Chained, PickColor;
    app.widId := app.widId + 1;
    app.all := app.all + {w};
    app.kids := app.kids[w := []];
    forall p | p in app.all
      ensures app.Node(p)
    {
      if p == w {
        NoChildren(w);
      } else {
        assert old(app.Node(p));
        forall i | 0 <= i < |app.kids[p]|
          ensures app.Child(p, i)
        {
          assert old(app.Child(p, i));
        }
      }
    }
    forall a | a in app.all && a != w
      ensures a.pickId < w.pickId
    {
      assert old(app.Node(a));
    }
  }

  lemma NoChildren(w: Widget)
    requires w.childrenHead == null && w.childrenTail == null
    ensures Chained(w, [])
  {
  }

  /** Valid, but for the pointers of one list of children, which spell out `t` instead. */
  ghost predicate ValidBut(app: App, parent: Widget, t: seq<Widget>)
    reads app, app.all, parent, t
  {
    && app.kids.Keys == app.all && parent in app.all
    && (forall p {:trigger Apart(app, p, parent)} | p in app.all :: Apart(app, p, parent))
    && (forall a, b | a in app.all && b in app.all :: a.pickId == b.pickId ==> a == b)
    && Chained(parent, t)
  }

  ghost predicate Apart(app: App, p: Widget, parent: Widget)
    reads app, app.all
    requires app.kids.Keys == app.all && p in app.all
  {
    app.ChildrenExist(p) && app.Family(p) && (p != parent ==> Chained(p, app.kids[p]))
  }

  lemma InsertedFacts(s: seq<Widget>, k: nat, w: Widget)
    requires NoDuplicates(s) && w !in s && k <= |s|
    ensures NoDuplicates(InsertedAt(s, k, w))
    ensures forall q :: q in InsertedAt(s, k, w) <==> q in s || q == w
  {
    var t := InsertedAt(s, k, w);
    assert t[k] == w;
    forall q | q in s
      ensures q in t
    {
      var i :| 0 <= i < |s| && s[i] == q;
      assert t[if i < k then i else i + 1] == q;
    }
  }

  /** Records a linked child in the hierarchy. */
  method AddChild(app: App, parent: Widget, w: Widget, ghost k: nat)
    requires app.kids.Keys == app.all && parent in app.all && k <= |app.kids[parent]|
    requires ValidBut(app, parent, InsertedAt(app.kids[parent], k, w))
    requires w !in app.all && w.parent == parent && w.pickId == app.widId && w.pickColor == PickColor(w.pickId)
    requires w.childrenHead == null && w.childrenTail == null
    modifies app`widId, app`all, app`kids
    ensures app.Valid() && app.widId == old(app.widId) + 1
    ensures app.all == old(app.all) + {w}
    ensures app.kids == old(app.kids)[w := []][parent := InsertedAt(old(app.kids[parent]), k, w)]
  {
    hide Chained, PickColor, InsertedAt;
    ghost var s := app.kids[parent];
    ghost var t := InsertedAt(s, k, w);
    assert Apart(app, parent, parent);
    InsertedFacts(s, k, w);
    app.widId := app.widId + 1;
    app.all := app.all + {w};
    app.kids := app.kids[w := []][parent := t];
    forall p | p in app.all
      ensures app.Node(p)
    {
      if p == w {
        NoChildren(w);
      } else {
        assert old(Apart(app, p, parent));
        forall i | 0 <= i < |app.kids[p]|
          ensures app.Child(p, i)
        {
          if p != parent {
            assert old(app.Child(p, i));
          } else {
            assert t[i] in t;
            if t[i] != w {
              var j :| 0 <= j < |s| && s[j] == t[i];
              assert old(app.Child(p, j));
            }
          }
        }
      }
    }
    forall a | a in app.all && a != w
      ensures a.pickId < w.pickId
    {
      assert old(Apart(app, a, parent));
    }
  }

  /** Finds the first resize button behind the first child, and the child before it. */
  method FindResize(app: App, parent: Widget) returns (penultimate: Widget, ultimate: Widget, ghost j: nat)
    requires app.Valid() && parent in app.all && |app.kids[parent]| >= 2
    requires FirstResize(app.kids[parent], 1) < |app.kids[parent]|
    ensures 1 <= j < |app.kids[parent]| && j == FirstResize(app.kids[parent], 1)
    ensures penultimate == app.kids[parent][j - 1] && ultimate == app.kids[parent][j]
  {
    ghost var s := app.kids[parent];
    assert app.Node(parent) && NextIs(s, 0);
    penultimate := parent.childrenHead;
    ultimate := penultimate.nextSibling;
    j := 1;
    while ultimate.wclass != ButtonClass || (ultimate.wclass == ButtonClass && !ultimate.isResizeButton)
      invariant 1 <= j < |s| && penultimate == s[j - 1] && ultimate == s[j]
      invariant FirstResize(s, 1) == FirstResize(s, j) < |s|
      decreases |s| - j
    {
      assert NextIs(s, j - 1) && NextIs(s, j);
      penultimate := penultimate.nextSibling;
      ultimate := penultimate.nextSibling;
      j := j + 1;
    }
  }

  /** Links a new widget in front of an only child. */
  method LinkFirst(parent: Widget, ghost s: seq<Widget>, w: Widget)
    requires |s| == 1 && Chained(parent, s) && w !in s
    modifies w`nextSibling, parent`childrenHead
    ensures Chained(parent, InsertedAt(s, 0, w))
  {
    var first := parent.childrenHead;
    assert NextIs(s, 0);
    parent.childrenHead := w;
    w.nextSibling := first;
    ghost var t := InsertedAt(s, 0, w);
    assert NextIs(t, 0) && NextIs(t, 1);
  }

  /** Links a new widget just before the last child. */
  method LinkBeforeLast(parent: Widget, ghost s: seq<Widget>, w: Widget, penultimate: Widget)
    requires |s| >= 2 && Chained(parent, s) && w !in s && NoDuplicates(s) && penultimate == s[|s| - 2]
    modifies w`nextSibling, penultimate`nextSibling
    ensures Chained(parent, InsertedAt(s, |s| - 1, w))
  {
    penultimate.nextSibling := w;
    w.nextSibling := parent.childrenTail;
    ghost var t := InsertedAt(s, |s| - 1, w);
    forall i | 0 <= i < |t|
      ensures NextIs(t, i)
    {
      assert i < |s| ==> old(NextIs(s, i));
      assert old(NextIs(s, |s| - 1));
    }
  }

  /** Links a new widget behind the last child. */
  method LinkLast(parent: Widget, ghost s: seq<Widget>, w: Widget)
    requires Chained(parent, s) && w !in s && NoDuplicates(s)
    modifies w`nextSibling, parent`childrenHead, parent`childrenTail, s`nextSibling
    ensures Chained(parent, InsertedAt(s, |s|, w))
  {
    if parent.childrenTail != null {
      parent.childrenTail.nextSibling := w;
    }
    parent.childrenTail := w;
    w.nextSibling := null;
    if parent.childrenHead == null {
      parent.childrenHead := w;
    }
    ghost var t := InsertedAt(s, |s|, w);
    forall i | 0 <= i < |t|
      ensures NextIs(t, i)
    {
      assert i < |s| ==> old(NextIs(s, i));
    }
  }

  /** Chooses the place of a new widget among the children of its parent, and links it there. */
  method LinkIn(app: App, parent: Widget, w: Widget) returns (ghost k: nat)
    requires app.Valid() && parent in app.all && HasResize(parent, app.kids[parent]) && w !in app.kids[parent]
    modifies w`nextSibling, parent`childrenHead, parent`childrenTail, (app.kids[parent])`nextSibling
    ensures k == old(InsertIndex(parent, app.kids[parent]))
    ensures Chained(parent, InsertedAt(app.kids[parent], k, w))
  {
    hide Chained, InsertedAt;
    ghost var s := app.kids[parent];
    k := InsertIndex(parent, s);
    assert app.Node(parent);
    ChainedEnds(parent, s);
    var placeAtTail := true;
    if ResizableToplevel(parent) && parent.childrenHead != null {
      if parent.childrenHead.nextSibling == null {
        LinkFirst(parent, s, w);
        placeAtTail := false;
      } else {
        var penultimate, ultimate, j := FindResize(app, parent);
        ChainedNext(parent, s, j);
        if ultimate.nextSibling == null && parent.childrenTail == ultimate
           && ultimate.wclass == ButtonClass && ultimate.isResizeButton {
          LinkBeforeLast(parent, s, w, penultimate);
          placeAtTail := false;
        }
      }
    }
    if placeAtTail {
      LinkLast(parent, s, w);
    }
  }

  lemma ChainedEnds(p: Widget, s: seq<Widget>)
    requires Chained(p, s)
    ensures p.childrenHead == At(s, 0) && p.childrenTail == if s == [] then null else s[|s| - 1]
    ensures s != [] ==> s[0].nextSibling == At(s, 1)
  {
    assert s != [] ==> NextIs(s, 0);
  }

  lemma ChainedNext(p: Widget, s: seq<Widget>, j: nat)
    requires Chained(p, s) && j < |s|
    ensures s[j].nextSibling == At(s, j + 1)
  {
    assert NextIs(s, j);
  }

  /** Links a new widget into one list of children; every other list stays as it is. */
  method Link(app: App, parent: Widget, w: Widget) returns (ghost k: nat)
    requires app.Valid() && parent in app.all && HasResize(parent, app.kids[parent]) && w !in app.all
    modifies w`nextSibling, parent`childrenHead, parent`childrenTail, (app.kids[parent])`nextSibling
    ensures k == old(InsertIndex(parent, app.kids[parent]))
    ensures ValidBut(app, parent, InsertedAt(app.kids[parent], k, w))
  {
    hide InsertedAt, InsertIndex;
    assert app.Node(parent);
    k := LinkIn(app, parent, w);
    forall p | p in app.all
      ensures Apart(app, p, parent)
    {
      assert old(app.Node(p));
      ParentOfChildren(app, parent);
      ParentOfChildren(app, p);
      if p != parent {
        forall i | 0 <= i < |app.kids[p]|
          ensures NextIs(app.kids[p], i)
        {
          assert old(NextIs(app.kids[p], i));
          assert app.kids[p][i] in app.kids[p];
        }
      }
    }
  }

  lemma ParentOfChildren(app: App, p: Widget)
    requires app.kids.Keys == app.all && p in app.all && app.ChildrenExist(p) && app.Family(p)
    ensures forall c | c in app.kids[p] :: c.parent == p
  {
    forall c | c in app.kids[p]
      ensures c.parent == p
    {
      var i :| 0 <= i < |app.kids[p]| && app.kids[p][i] == c;
      assert app.Child(p, i);
    }
  }

  method SetResizeButton(app: App, w: Widget)
    requires app.Valid() && w in app.all
    modifies w`isResizeButton
    ensures app.Valid() && w.isResizeButton
  {
    hide Chained, PickColor;
    w.isResizeButton := true;
    forall p | p in app.all
      ensures app.Node(p)
    {
      assert old(app.Node(p));
    }
  }
}
