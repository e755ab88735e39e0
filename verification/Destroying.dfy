/** Destroying widgets: unlinking one child, and freeing everything below it exactly once. */
module Destroying {
  import opened Geometry
  import opened WidgetTree
  import opened Hierarchy
  import opened Invalidation

  /** `x` is `w` or lies below it. */
  ghost predicate Under(app: App, x: Widget, w: Widget)
    reads app, app.all`parent, app.all`childrenHead, app.all`childrenTail, app.all`nextSibling
    requires app.Valid() && x in app.all
    decreases x.pickId
  {
    x == w || (x.parent != null && (ParentFacts(app, x); Under(app, x.parent, w)))
  }

  lemma ParentFacts(app: App, x: Widget)
    requires app.Valid() && x in app.all && x.parent != null
    ensures x.parent in app.all && x in app.kids[x.parent] && x.parent.pickId < x.pickId
  {
    assert app.Node(x) && app.Node(x.parent);
    var i :| 0 <= i < |app.kids[x.parent]| && app.kids[x.parent][i] == x;
    assert app.Child(x.parent, i);
  }

  lemma ChildFacts(app: App, p: Widget, i: nat)
    requires app.Valid() && p in app.all && i < |app.kids[p]|
    ensures var c := app.kids[p][i];
            c in app.all && c.parent == p && c.pickId > p.pickId && c.pickId < app.widId
            && c.nextSibling == At(app.kids[p], i + 1)
  {
    assert app.Node(p) && app.Child(p, i) && app.Node(app.kids[p][i]) && NextIs(app.kids[p], i);
  }

  /** The order in which the children of `p` from the `i`th on are freed: each after everything below it. */
  ghost function FreedFrom(app: App, p: Widget, i: nat): seq<Widget>
    reads app, app.all
    requires app.Valid() && p in app.all && i <= |app.kids[p]|
    decreases app.widId - p.pickId, |app.kids[p]| - i
  {
    if i == |app.kids[p]| then []
    else
      ChildFacts(app, p, i);
      FreedFrom(app, app.kids[p][i], 0) + [app.kids[p][i]] + FreedFrom(app, p, i + 1)
  }

  /** The widgets whose destructor is called while they are freed: the first of each list of children. */
  ghost function NotifiedFrom(app: App, p: Widget, i: nat): seq<Widget>
    reads app, app.all
    requires app.Valid() && p in app.all && i <= |app.kids[p]|
    decreases app.widId - p.pickId, |app.kids[p]| - i
  {
    if i == |app.kids[p]| then []
    else
      ChildFacts(app, p, i);
      var c := app.kids[p][i];
      (if i == 0 then [c] else []) + NotifiedFrom(app, c, 0) + NotifiedFrom(app, p, i + 1)
  }

  lemma {:induction false} UnderTransitive(app: App, x: Widget, c: Widget, p: Widget)
    requires app.Valid() && x in app.all && c in app.all && Under(app, x, c) && Under(app, c, p)
    ensures Under(app, x, p)
    decreases x.pickId
  {
    if x != c {
      ParentFacts(app, x);
      UnderTransitive(app, x.parent, c, p);
    }
  }

  lemma {:induction false} UnderIsYounger(app: App, x: Widget, w: Widget)
    requires app.Valid() && x in app.all && w in app.all && Under(app, x, w)
    ensures x.pickId >= w.pickId && (x == w || x.pickId > w.pickId)
    decreases x.pickId
  {
    if x != w {
      ParentFacts(app, x);
      UnderIsYounger(app, x.parent, w);
    }
  }

  /** Two siblings have nothing below them in common. */
  lemma {:induction false} SiblingsApart(app: App, x: Widget, a: Widget, b: Widget)
    requires app.Valid() && x in app.all && a in app.all && b in app.all
    requires a.parent != null && a.parent == b.parent && Under(app, x, a) && Under(app, x, b)
    ensures a == b
    decreases x.pickId
  {
    ParentFacts(app, a);
    UnderIsYounger(app, x, a);
    UnderIsYounger(app, x, b);
    if x != a && x != b {
      ParentFacts(app, x);
      SiblingsApart(app, x.parent, a, b);
    } else if x == a && x != b {
      UnderIsYounger(app, a.parent, b);
      ParentFacts(app, b);
    } else if x == b && x != a {
      UnderIsYounger(app, b.parent, a);
    }
  }

  /** What is freed is exactly what lies below the listed children, each widget once. */
  lemma {:induction false} FreedExactly(app: App, p: Widget, i: nat)
    requires app.Valid() && p in app.all && i <= |app.kids[p]|
    ensures forall x | x in FreedFrom(app, p, i) :: x in app.all && BelowSome(app, x, p, i)
    ensures NoDuplicates(FreedFrom(app, p, i))
    decreases app.widId - p.pickId, |app.kids[p]| - i
  {
    if i < |app.kids[p]| {
      ChildFacts(app, p, i);
      var c := app.kids[p][i];
      var inner, rest := FreedFrom(app, c, 0), FreedFrom(app, p, i + 1);
      FreedExactly(app, c, 0);
      FreedExactly(app, p, i + 1);
      forall x | x in inner
        ensures x in app.all && Under(app, x, c) && x != c
      {
        BelowChild(app, x, c);
      }
      forall x | x in rest
        ensures x in app.all && !Under(app, x, c)
      {
        LaterApart(app, x, p, i);
      }
      DistinctParts(inner, c, rest);
    }
  }

  ghost predicate BelowSome(app: App, x: Widget, p: Widget, i: nat)
    reads app, app.all`parent, app.all`childrenHead, app.all`childrenTail, app.all`nextSibling
    requires app.Valid() && p in app.all && x in app.all
  {
    exists j :: i <= j < |app.kids[p]| && Under(app, x, app.kids[p][j])
  }

  lemma BelowChild(app: App, x: Widget, c: Widget)
    requires app.Valid() && x in app.all && c in app.all && BelowSome(app, x, c, 0)
    ensures Under(app, x, c) && x != c
  {
    var j :| 0 <= j < |app.kids[c]| && Under(app, x, app.kids[c][j]);
    ChildFacts(app, c, j);
    UnderTransitive(app, x, app.kids[c][j], c);
    UnderIsYounger(app, x, app.kids[c][j]);
  }

  lemma LaterApart(app: App, x: Widget, p: Widget, i: nat)
    requires app.Valid() && p in app.all && x in app.all && i < |app.kids[p]| && BelowSome(app, x, p, i + 1)
    ensures !Under(app, x, app.kids[p][i])
  {
    var j :| i + 1 <= j < |app.kids[p]| && Under(app, x, app.kids[p][j]);
    ChildFacts(app, p, i);
    ChildFacts(app, p, j);
    assert app.Node(p);
    if Under(app, x, app.kids[p][i]) {
      SiblingsApart(app, x, app.kids[p][i], app.kids[p][j]);
      assert false;
    }
  }

  lemma DistinctParts(a: seq<Widget>, c: Widget, b: seq<Widget>)
    requires NoDuplicates(a) && NoDuplicates(b) && c !in a && c !in b
    requires forall x | x in a :: x !in b
    ensures NoDuplicates(a + [c] + b)
  {
    var t := a + [c] + b;
    forall i, j | 0 <= i < j < |t|
      ensures t[i] != t[j]
    {
      assert i < |a| ==> t[i] == a[i] && t[i] in a;
      assert j > |a| ==> t[j] == b[j - |a| - 1] && t[j] in b;
      assert i > |a| ==> t[i] == b[i - |a| - 1];
      assert j < |a| ==> t[j] == a[j];
    }
  }

  /** Everything below `p` is freed with its children. */
  lemma {:induction false} FreedComplete(app: App, p: Widget, i: nat, x: Widget)
    requires app.Valid() && p in app.all && x in app.all && i <= |app.kids[p]| && BelowSome(app, x, p, i)
    ensures x in FreedFrom(app, p, i)
    decreases app.widId - p.pickId, |app.kids[p]| - i
  {
    var j :| i <= j < |app.kids[p]| && Under(app, x, app.kids[p][j]);
    ChildFacts(app, p, i);
    var c := app.kids[p][i];
    if j == i {
      if x != c {
        UnderFirst(app, x, c);
        FreedComplete(app, c, 0, x);
      }
    } else {
      FreedComplete(app, p, i + 1, x);
    }
  }

  /** A widget below `w` is `w` or below one of its children. */
  lemma {:induction false} UnderFirst(app: App, x: Widget, w: Widget)
    requires app.Valid() && x in app.all && w in app.all && Under(app, x, w) && x != w
    ensures BelowSome(app, x, w, 0)
    decreases x.pickId
  {
    ParentFacts(app, x);
    if x.parent == w {
      var j :| 0 <= j < |app.kids[w]| && app.kids[w][j] == x;
      assert Under(app, x, app.kids[w][j]);
    } else {
      UnderFirst(app, x.parent, w);
      var j :| 0 <= j < |app.kids[w]| && Under(app, x.parent, app.kids[w][j]);
      assert Under(app, x, app.kids[w][j]);
    }
  }

  /** The order in which destroying `w` frees everything. */
  ghost function Freed(app: App, w: Widget): seq<Widget>
    reads app, app.all
    requires app.Valid() && w in app.all
  {
    FreedFrom(app, w, 0) + [w]
  }

  /** Destroying a widget frees it and everything below it, each exactly once. */
  lemma DestroyFreesOnce(app: App, w: Widget)
    requires app.Valid() && w in app.all
    ensures NoDuplicates(Freed(app, w))
    ensures forall x | x in app.all :: x in Freed(app, w) <==> Under(app, x, w)
    ensures forall x | x in Freed(app, w) :: x in app.all
  {
    FreedExactly(app, w, 0);
    forall x | x in FreedFrom(app, w, 0)
      ensures x in app.all && Under(app, x, w) && x != w
    {
      BelowChild(app, x, w);
    }
    DistinctParts(FreedFrom(app, w, 0), w, []);
    assert FreedFrom(app, w, 0) + [w] + [] == Freed(app, w);
    forall x | x in app.all
      ensures x in Freed(app, w) <==> Under(app, x, w)
    {
      if Under(app, x, w) && x != w {
        UnderFirst(app, x, w);
        FreedComplete(app, w, 0, x);
      }
    }
  }

  /** No widget of the sequence is below an earlier one. */
  ghost predicate BelowFirst(app: App, fs: seq<Widget>)
    reads app, app.all`parent, app.all`childrenHead, app.all`childrenTail, app.all`nextSibling
    requires app.Valid()
  {
    && (forall a | 0 <= a < |fs| :: fs[a] in app.all)
    && forall a, b | 0 <= a < b < |fs| :: !Under(app, fs[b], fs[a])
  }

  lemma BelowFirstParts(app: App, inner: seq<Widget>, c: Widget, rest: seq<Widget>)
    requires app.Valid() && c in app.all && BelowFirst(app, inner) && BelowFirst(app, rest)
    requires forall x | x in inner :: x in app.all && !Under(app, c, x)
    requires forall x, y | x in inner + [c] && y in rest :: x in app.all && y in app.all && !Under(app, y, x)
    ensures BelowFirst(app, inner + [c] + rest)
  {
    hide Under;
    var fs := inner + [c] + rest;
    forall a, b | 0 <= a < b < |fs|
      ensures fs[b] in app.all && !Under(app, fs[b], fs[a])
    {
      if b < |inner| {
        assert fs[a] == inner[a] && fs[b] == inner[b];
      } else if b == |inner| {
        assert fs[a] == inner[a] && inner[a] in inner && fs[b] == c;
      } else if a <= |inner| {
        assert fs[a] == (inner + [c])[a] && (inner + [c])[a] in inner + [c];
        assert fs[b] == rest[b - |inner| - 1] && rest[b - |inner| - 1] in rest;
      } else {
        assert fs[a] == rest[a - |inner| - 1] && fs[b] == rest[b - |inner| - 1];
      }
    }
  }

  /** Each widget is freed after everything below it. */
  lemma {:induction false} ChildrenFirst(app: App, p: Widget, i: nat)
    requires app.Valid() && p in app.all && i <= |app.kids[p]|
    ensures BelowFirst(app, FreedFrom(app, p, i))
    decreases app.widId - p.pickId, |app.kids[p]| - i
  {
    hide Under, BelowFirst;
    if i < |app.kids[p]| {
      ChildFacts(app, p, i);
      var c := app.kids[p][i];
      var inner, rest := FreedFrom(app, c, 0), FreedFrom(app, p, i + 1);
      ChildrenFirst(app, c, 0);
      ChildrenFirst(app, p, i + 1);
      FreedExactly(app, c, 0);
      FreedExactly(app, p, i + 1);
      forall x | x in inner
        ensures x in app.all && Under(app, x, c) && !Under(app, c, x)
      {
        NotBelowItself(app, x, c);
      }
      forall x, y | x in inner + [c] && y in rest
        ensures x in app.all && y in app.all && !Under(app, y, x)
      {
        LaterApart(app, y, p, i);
        if Under(app, y, x) {
          if x != c {
            UnderTransitive(app, y, x, c);
          }
          assert false;
        }
      }
      BelowFirstParts(app, inner, c, rest);
    } else {
      NoneFirst(app);
    }
  }

  lemma NoneFirst(app: App)
    requires app.Valid()
    ensures BelowFirst(app, [])
  {
  }

  lemma NotBelowItself(app: App, x: Widget, c: Widget)
    requires app.Valid() && x in app.all && c in app.all && BelowSome(app, x, c, 0)
    ensures Under(app, x, c) && !Under(app, c, x)
  {
    BelowChild(app, x, c);
    UnderIsYounger(app, x, c);
    if Under(app, c, x) {
      UnderIsYounger(app, c, x);
      assert false;
    }
  }

  /** The destructor is called for the destroyed widget and for first children, so it is missed
      exactly by the later children below the destroyed widget. */
  lemma {:induction false} NotifiedExactly(app: App, p: Widget, i: nat, x: Widget)
    requires app.Valid() && p in app.all && x in app.all && i <= |app.kids[p]|
    ensures x in NotifiedFrom(app, p, i) <==>
              x in FreedFrom(app, p, i) && x.parent != null && x.parent.childrenHead == x
    decreases app.widId - p.pickId, |app.kids[p]| - i
  {
    if i < |app.kids[p]| {
      ChildFacts(app, p, i);
      assert app.Node(p);
      var c := app.kids[p][i];
      NotifiedExactly(app, c, 0, x);
      NotifiedExactly(app, p, i + 1, x);
      assert x == c ==> (x.parent.childrenHead == x <==> i == 0);
    }
  }

  /** The list of invalidated rectangles after a widget has been taken off the screen. */
  function Unmapped(w: Widget, window: Size, list: seq<Rect>): seq<Rect>
    reads w`mapped, w`screenLocation
  {
    if w.mapped then Invalidated(list, w.screenLocation, window) else list
  }

  /** The list after the children of `p` from the `i`th on have been freed, with everything below them. */
  ghost function UnmappedFrom(app: App, p: Widget, i: nat, window: Size, list: seq<Rect>): seq<Rect>
    reads app, app.all
    requires app.Valid() && p in app.all && i <= |app.kids[p]|
    decreases app.widId - p.pickId, |app.kids[p]| - i
  {
    if i == |app.kids[p]| then list
    else
      ChildFacts(app, p, i);
      var c := app.kids[p][i];
      UnmappedFrom(app, p, i + 1, window, Unmapped(c, window, UnmappedFrom(app, c, 0, window, list)))
  }

  /** Takes a widget off the screen; its storage is freed next. */
  method Unmap(list: RectList, w: Widget)
    requires list.Valid()
    modifies list, list.nodes
    ensures list.Valid() && forall k | 0 <= k < |list.nodes| :: list.nodes[k] in old(list.nodes) || fresh(list.nodes[k])
    ensures list.Rects() == Unmapped(w, list.window, old(list.Rects()))
  {
    hide Invalidated, RectList.Rects;
    if w.mapped {
      var location := new RectCell(w.screenLocation);
      list.Invalidate(location);
    }
  }

  /** Frees a list of siblings and everything below them; the destructor of the first is called, and
      each widget is taken off the screen. */
  method DestroyRecurs(app: App, list: RectList, ghost p: Widget, widget: Widget)
    returns (freed: seq<Widget>, notified: seq<Widget>)
    requires app.Valid() && list.Valid() && p in app.all && app.kids[p] != [] && widget == app.kids[p][0]
    modifies list, list.nodes
    ensures list.Valid() && forall k | 0 <= k < |list.nodes| :: list.nodes[k] in old(list.nodes) || fresh(list.nodes[k])
    ensures freed == FreedFrom(app, p, 0) && notified == NotifiedFrom(app, p, 0)
    ensures list.Rects() == UnmappedFrom(app, p, 0, list.window, old(list.Rects()))
    decreases app.widId - p.pickId, 1
  {
    hide FreedFrom, NotifiedFrom, NotifiedTail, App.Node, Unmapped, UnmappedFrom, RectList.Rects, RectList.Valid;
    DestroyStarts(app, p);
    UnmappedEnds(app, p, list.window);
    freed, notified := [], [widget];
    var current: Widget? := widget;
    ghost var i := 0;
    while current != null
      invariant 0 <= i <= |app.kids[p]| && current == At(app.kids[p], i)
      invariant freed + FreedFrom(app, p, i) == FreedFrom(app, p, 0)
      invariant notified + NotifiedTail(app, p, i) == NotifiedFrom(app, p, 0)
      invariant list.Valid() && forall k | 0 <= k < |list.nodes| :: list.nodes[k] in old(list.nodes) || fresh(list.nodes[k])
      invariant UnmappedFrom(app, p, i, list.window, list.Rects())
             == UnmappedFrom(app, p, 0, list.window, old(list.Rects()))
      decreases |app.kids[p]| - i
    {
      ChildFacts(app, p, i);
      DestroyStep(app, p, i, freed, notified);
      UnmappedStep(app, p, i, list.window, list.Rects());
      var next := current.nextSibling;
      var f, n := FreeChild(app, list, current);
      freed, notified := freed + f + [current], notified + n;
      current := next;
      i := i + 1;
    }
    UnmappedEnds(app, p, list.window);
  }

  /** Frees everything below a widget, and takes the widget itself off the screen. */
  method FreeChild(app: App, list: RectList, current: Widget) returns (freed: seq<Widget>, notified: seq<Widget>)
    requires app.Valid() && list.Valid() && current in app.all
    modifies list, list.nodes
    ensures list.Valid() && forall k | 0 <= k < |list.nodes| :: list.nodes[k] in old(list.nodes) || fresh(list.nodes[k])
    ensures freed == FreedFrom(app, current, 0) && notified == NotifiedFrom(app, current, 0)
    ensures list.Rects() == Unmapped(current, list.window, UnmappedFrom(app, current, 0, list.window, old(list.Rects())))
    decreases app.widId - current.pickId, 2
  {
    hide FreedFrom, NotifiedFrom, Unmapped, UnmappedFrom, RectList.Rects, RectList.Valid;
    assert app.Node(current);
    freed, notified := [], [];
    if current.childrenHead != null {
      freed, notified := DestroyRecurs(app, list, current, current.childrenHead);
    } else {
      NothingBelow(app, current);
      UnmappedEnds(app, current, list.window);
    }
    Unmap(list, current);
  }

  lemma UnmappedEnds(app: App, p: Widget, window: Size)
    requires app.Valid() && p in app.all
    ensures forall rects :: UnmappedFrom(app, p, |app.kids[p]|, window, rects) == rects
  {
  }

  lemma UnmappedStep(app: App, p: Widget, i: nat, window: Size, rects: seq<Rect>)
    requires app.Valid() && p in app.all && i < |app.kids[p]| && app.kids[p][i] in app.all
    ensures UnmappedFrom(app, p, i, window, rects)
         == UnmappedFrom(app, p, i + 1, window,
                         Unmapped(app.kids[p][i], window, UnmappedFrom(app, app.kids[p][i], 0, window, rects)))
  {
  }

  lemma DestroyStarts(app: App, p: Widget)
    requires app.Valid() && p in app.all && app.kids[p] != []
    ensures [app.kids[p][0]] + NotifiedTail(app, p, 0) == NotifiedFrom(app, p, 0)
    ensures FreedFrom(app, p, |app.kids[p]|) == [] && NotifiedTail(app, p, |app.kids[p]|) == []
  {
  }

  /** What is to do at the `i`th child: everything below it, then itself, then the later children. */
  lemma DestroyStep(app: App, p: Widget, i: nat, freed: seq<Widget>, notified: seq<Widget>)
    requires app.Valid() && p in app.all && i < |app.kids[p]|
    ensures var c := app.kids[p][i];
            && c in app.all && c.childrenHead == At(app.kids[c], 0)
            && freed + FreedFrom(app, p, i) == (freed + FreedFrom(app, c, 0)) + [c] + FreedFrom(app, p, i + 1)
            && notified + NotifiedTail(app, p, i) == (notified + NotifiedFrom(app, c, 0)) + NotifiedTail(app, p, i + 1)
            && (app.kids[c] == [] ==> freed + FreedFrom(app, c, 0) == freed && notified + NotifiedFrom(app, c, 0) == notified)
  {
    ChildFacts(app, p, i);
    assert app.Node(app.kids[p][i]);
    assert NotifiedTail(app, p, i + 1) == NotifiedFrom(app, p, i + 1);
    assert FreedFrom(app, p, i) == FreedFrom(app, app.kids[p][i], 0) + [app.kids[p][i]] + FreedFrom(app, p, i + 1);
    hide FreedFrom, NotifiedFrom, App.Node;
  }

  /** The calls still to come from the `i`th child on, when the first has been called for. */
  ghost function NotifiedTail(app: App, p: Widget, i: nat): seq<Widget>
    reads app, app.all
    requires app.Valid() && p in app.all && i <= |app.kids[p]|
  {
    if i == |app.kids[p]| then []
    else
      ChildFacts(app, p, i);
      NotifiedFrom(app, app.kids[p][i], 0) + NotifiedFrom(app, p, i + 1)
  }

  // ----- unlinking -----

  function RemovedAt(s: seq<Widget>, k: nat): seq<Widget>
    requires k < |s|
  {
    s[..k] + s[k + 1..]
  }

  /** `t` is `s` without `w`, in the same order. */
  ghost predicate Removes(s: seq<Widget>, w: Widget, t: seq<Widget>) {
    exists k :: 0 <= k < |s| && s[k] == w && t == RemovedAt(s, k)
  }

  lemma RemovedFacts(s: seq<Widget>, k: nat)
    requires NoDuplicates(s) && k < |s|
    ensures NoDuplicates(RemovedAt(s, k))
    ensures forall c :: c in RemovedAt(s, k) <==> c in s && c != s[k]
  {
    var t := RemovedAt(s, k);
    forall c | c in s && c != s[k]
      ensures c in t
    {
      var i :| 0 <= i < |s| && s[i] == c;
      assert t[if i < k then i else i - 1] == c;
    }
    forall c | c in t
      ensures c in s && c != s[k]
    {
      var i :| 0 <= i < |t| && t[i] == c;
      assert t[i] == s[if i < k then i else i + 1];
    }
  }

  /** Finds a child in its parent's list, and the child before it. */
  method FindChild(app: App, widget: Widget, parent: Widget) returns (before: Widget?, ghost k: nat)
    requires app.Valid() && widget in app.all && widget.parent == parent
    ensures parent in app.all && k < |app.kids[parent]| && app.kids[parent][k] == widget
    ensures before == if k == 0 then null else app.kids[parent][k - 1]
  {
    ParentFacts(app, widget);
    ghost var s := app.kids[parent];
    assert app.Node(parent);
    ghost var n :| 0 <= n < |s| && s[n] == widget;
    before := null;
    var current := parent.childrenHead;
    k := 0;
    while current != null && current != widget
      invariant 0 <= k <= n && current == s[k] && before == if k == 0 then null else s[k - 1]
      decreases n - k
    {
      assert NextIs(s, k);
      before := current;
      current := current.nextSibling;
      k := k + 1;
    }
  }

  /** Takes a child out of its parent's list: an only child, the first, the last, or one between. */
  method UnlinkAt(parent: Widget, ghost s: seq<Widget>, widget: Widget, before: Widget?, ghost k: nat)
    requires Chained(parent, s) && NoDuplicates(s) && k < |s| && s[k] == widget
    requires before == if k == 0 then null else s[k - 1]
    modifies parent`childrenHead, parent`childrenTail, s`nextSibling
    ensures Chained(parent, RemovedAt(s, k))
  {
    assert NextIs(s, k);
    if before == null && parent.childrenTail == widget {
      parent.childrenTail := null;
      parent.childrenHead := null;
    } else if before == null {
      parent.childrenHead := widget.nextSibling;
    } else if widget == parent.childrenTail {
      before.nextSibling := null;
      parent.childrenTail := before;
    } else {
      before.nextSibling := widget.nextSibling;
    }
    ghost var t := RemovedAt(s, k);
    forall i | 0 <= i < |t|
      ensures NextIs(t, i)
    {
      assert t[i] == s[if i < k then i else i + 1];
      assert old(NextIs(s, if i < k then i else i + 1));
    }
  }

  /** Unlinks a child; every other list of children stays as it is. */
  method Unlink(app: App, widget: Widget, parent: Widget) returns (ghost k: nat)
    requires app.Valid() && widget in app.all && widget.parent == parent && parent in app.all
    modifies parent`childrenHead, parent`childrenTail, (app.kids[parent])`nextSibling
    ensures k < |app.kids[parent]| && app.kids[parent][k] == widget
    ensures ValidBut(app, parent, RemovedAt(app.kids[parent], k))
  {
    hide RemovedAt;
    assert app.Node(parent);
    var before;
    before, k := FindChild(app, widget, parent);
    UnlinkAt(parent, app.kids[parent], widget, before, k);
    forall p | p in app.all
      ensures Apart(app, p, parent)
    {
      assert old(app.Node(p));
      ParentOfChildren(app, parent);
      ParentOfChildren(app, p);
      if p != parent {
        forall i | 0 <= i < |app.kids[p]|
          ensures NextIs(app.kids[p], i)
        {
          assert old(NextIs(app.kids[p], i));
          assert app.kids[p][i] in app.kids[p];
        }
      }
    }
  }

  ghost function Elements(s: seq<Widget>): set<Widget> {
    set x | x in s
  }

  /** A set of widgets that can go: nothing below it stays. */
  ghost predicate Closed(app: App, gone: set<Widget>, widget: Widget)
    reads app, app.all`parent
  {
    && gone <= app.all && widget in gone && app.kids.Keys == app.all
    && (forall p {:trigger p in gone} | p in app.all && p !in gone ::
          && (p.parent != null ==> p.parent !in gone)
          && (forall c | c in app.kids[p] :: c in gone <==> c == widget && widget.parent == p))
  }

  /** What destroying frees is closed. */
  lemma FreedIsClosed(app: App, widget: Widget)
    requires app.Valid() && widget in app.all
    ensures Closed(app, Elements(Freed(app, widget)), widget)
  {
    hide Freed;
    var gone := Elements(Freed(app, widget));
    DestroyFreesOnce(app, widget);
    forall p | p in app.all && p !in gone
      ensures p.parent != null ==> p.parent !in gone
      ensures forall c | c in app.kids[p] :: c in gone <==> c == widget && widget.parent == p
    {
      if p.parent != null {
        ParentFacts(app, p);
      }
      forall c | c in app.kids[p]
        ensures c in gone <==> c == widget && widget.parent == p
      {
        var i :| 0 <= i < |app.kids[p]| && app.kids[p][i] == c;
        ChildFacts(app, p, i);
      }
    }
  }

  ghost function KidsLeft(kids: map<Widget, seq<Widget>>, gone: set<Widget>, parent: Widget?, t: seq<Widget>)
    : map<Widget, seq<Widget>>
  {
    map p | p in kids && p !in gone :: if p == parent then t else kids[p]
  }

  /** Forgets a closed set of widgets whose topmost one has been unlinked. */
  method Forget(app: App, ghost gone: set<Widget>, widget: Widget, ghost t: seq<Widget>)
    requires Closed(app, gone, widget)
    requires forall p {:trigger Ready(app, p, widget, t)} | p in app.all :: Ready(app, p, widget, t)
    requires forall a, b | a in app.all && b in app.all :: a.pickId == b.pickId ==> a == b
    requires widget.parent != null ==> widget.parent in app.all && NoDuplicates(t)
                                       && forall c :: c in t <==> c in app.kids[widget.parent] && c != widget
    modifies app`all, app`kids
    ensures app.Valid() && app.all == old(app.all) - gone
    ensures app.kids == KidsLeft(old(app.kids), gone, widget.parent, t)
  {
    hide Chained, PickColor;
    app.kids := KidsLeft(app.kids, gone, widget.parent, t);
    app.all := app.all - gone;
    forall p | p in app.all
      ensures app.Node(p)
    {
      assert old(Ready(app, p, widget, t));
      forall i | 0 <= i < |app.kids[p]|
        ensures app.Child(p, i)
      {
        var c := app.kids[p][i];
        assert c in app.kids[p];
        var j :| 0 <= j < |old(app.kids)[p]| && old(app.kids)[p][j] == c;
        assert old(app.Child(p, j));
      }
    }
  }

  ghost predicate Ready(app: App, p: Widget, widget: Widget, t: seq<Widget>)
    reads app, app.all, p, widget, t
    requires app.kids.Keys == app.all && p in app.all
  {
    app.ChildrenExist(p) && app.Family(p) && Chained(p, if p == widget.parent then t else app.kids[p])
  }

  /** What destroying `w` lists: its place, then the place of everything managed that is freed. */
  ghost function ListedByDestroying(app: App, w: Widget, window: Size, list: seq<Rect>): seq<Rect>
    reads app, app.all, w
    requires app.Valid() && w in app.all
  {
    Unmapped(w, window, UnmappedFrom(app, w, 0, window, Invalidated(list, w.screenLocation, window)))
  }

  /** Lists the place of a widget that is to be destroyed, and frees everything below it. */
  method FreeBelow(app: App, list: RectList, widget: Widget) returns (freed: seq<Widget>, notified: seq<Widget>)
    requires app.Valid() && list.Valid() && widget in app.all
    modifies list, list.nodes
    ensures list.Valid() && forall k | 0 <= k < |list.nodes| :: list.nodes[k] in old(list.nodes) || fresh(list.nodes[k])
    ensures freed == FreedFrom(app, widget, 0) && notified == [widget] + NotifiedFrom(app, widget, 0)
    ensures list.Rects()
         == UnmappedFrom(app, widget, 0, list.window, Invalidated(old(list.Rects()), widget.screenLocation, list.window))
  {
    hide NotifiedFrom, FreedFrom, RectList.Rects, RectList.Valid, UnmappedFrom, Invalidated;
    assert app.Node(widget);
    var location := new RectCell(widget.screenLocation);
    list.Invalidate(location);
    UnmappedEnds(app, widget, list.window);
    freed, notified := [], [widget];
    if widget.childrenHead != null {
      var f, n := DestroyRecurs(app, list, widget, widget.childrenHead);
      freed, notified := f, notified + n;
    } else {
      NothingBelow(app, widget);
    }
  }

  /** Unlinks a widget from its parent, if it has one. */
  method UnlinkIfChild(app: App, widget: Widget) returns (ghost t: seq<Widget>)
    requires app.Valid() && widget in app.all
    modifies app.all`childrenHead, app.all`childrenTail, app.all`nextSibling
    ensures widget.parent != null ==> widget.parent in app.all && Removes(app.kids[widget.parent], widget, t)
                                      && NoDuplicates(t)
                                      && forall c :: c in t <==> c in app.kids[widget.parent] && c != widget
    ensures forall p {:trigger Ready(app, p, widget, t)} | p in app.all :: Ready(app, p, widget, t)
  {
    hide RemovedAt;
    t := [];
    assert app.Node(widget);
    if widget.parent != null {
      assert app.Node(widget.parent);
      t := UnlinkFrom(app, widget);
    } else {
      forall p | p in app.all
        ensures Ready(app, p, widget, t)
      {
        assert app.Node(p);
      }
    }
  }

  /** Destroys a widget: lists its place, frees everything below it, unlinks it, and frees it. Returns
      what was freed, and whose destructor was called, in order. */
  method DestroyWidget(app: App, list: RectList, widget: Widget)
    returns (freed: seq<Widget>, notified: seq<Widget>, ghost t: seq<Widget>)
    requires app.Valid() && list.Valid() && widget in app.all
    modifies app`all, app`kids, app.all`childrenHead, app.all`childrenTail, app.all`nextSibling, list, list.nodes
    ensures list.Valid() && forall k | 0 <= k < |list.nodes| :: list.nodes[k] in old(list.nodes) || fresh(list.nodes[k])
    ensures list.Rects() == old(ListedByDestroying(app, widget, list.window, list.Rects()))
    ensures freed == old(Freed(app, widget)) && notified == [widget] + old(NotifiedFrom(app, widget, 0))
    ensures app.Valid() && app.all == old(app.all) - Elements(freed)
    ensures app.kids == KidsLeft(old(app.kids), Elements(freed), widget.parent, t)
    ensures widget.parent != null ==> widget.parent in old(app.kids) && Removes(old(app.kids)[widget.parent], widget, t)
  {
    hide NotifiedFrom, FreedFrom, RemovedAt, RectList.Rects, RectList.Valid, Unmapped, UnmappedFrom, Invalidated, App.Node;
    FreedIsClosed(app, widget);
    freed, notified := FreeBelow(app, list, widget);
    freed := freed + [widget];
    ghost var gone := Elements(freed);
    t := UnlinkIfChild(app, widget);
    Unmap(list, widget);
    Forget(app, gone, widget, t);
  }

  lemma NothingBelow(app: App, w: Widget)
    requires app.Valid() && w in app.all && w.childrenHead == null
    ensures FreedFrom(app, w, 0) == [] && NotifiedFrom(app, w, 0) == []
  {
    assert app.Node(w);
  }

  method UnlinkFrom(app: App, widget: Widget) returns (ghost t: seq<Widget>)
    requires app.Valid() && widget in app.all && widget.parent != null && widget.parent in app.all
    modifies widget.parent`childrenHead, widget.parent`childrenTail, (app.kids[widget.parent])`nextSibling
    ensures Removes(app.kids[widget.parent], widget, t)
    ensures NoDuplicates(t) && forall c :: c in t <==> c in app.kids[widget.parent] && c != widget
    ensures forall p {:trigger Ready(app, p, widget, t)} | p in app.all :: Ready(app, p, widget, t)
  {
    hide Chained, RemovedAt;
    assert app.Node(widget.parent);
    var parent := widget.parent;
    ghost var k := Unlink(app, widget, parent);
    t := RemovedAt(app.kids[parent], k);
    assert Apart(app, parent, parent);
    RemovedFacts(app.kids[parent], k);
    forall p | p in app.all
      ensures Ready(app, p, widget, t)
    {
      assert Apart(app, p, parent);
    }
  }
}
