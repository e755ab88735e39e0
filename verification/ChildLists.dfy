/** Runs of creates and destroys on the lists of children, and when a create finds the resize button
    it looks for. */
module ChildLists {
  import opened WidgetTree
  import opened Hierarchy
  import opened Destroying

  /** The children of each widget in order, the resizable toplevels, and the resize buttons. */
  datatype Lists = Lists(kids: map<Widget, seq<Widget>>, toplevels: set<Widget>, resizes: set<Widget>) {

    ghost predicate Closed() {
      toplevels <= kids.Keys && resizes <= kids.Keys
      && (forall p, c | p in kids && c in kids[p] :: c in kids)
      && (forall p, q, c | p in kids && q in kids && c in kids[p] && c in kids[q] :: p == q)
      && (forall p | p in kids :: NoDuplicates(kids[p]))
    }
  }

  /** The first resize button of a list from the `i`th child on, or the number of children. */
  function FirstIn(s: seq<Widget>, i: nat, resizes: set<Widget>): (k: nat)
    requires i <= |s|
    ensures i <= k <= |s| && (k < |s| ==> s[k] in resizes) && forall j | i <= j < k :: s[j] !in resizes
    decreases |s| - i
  {
    if i == |s| || s[i] in resizes then i else FirstIn(s, i + 1, resizes)
  }

  /** A create on a resizable toplevel with several children looks for a resize button behind the
      first child, and follows a null pointer if there is none. */
  predicate FindsResize(l: Lists, p: Widget)
    requires p in l.kids
  {
    p in l.toplevels && |l.kids[p]| >= 2 ==> FirstIn(l.kids[p], 1, l.resizes) < |l.kids[p]|
  }

  /** Where a new child of `p` goes. */
  function PlaceOf(l: Lists, p: Widget): (k: nat)
    requires p in l.kids
    ensures k <= |l.kids[p]|
  {
    var s := l.kids[p];
    if p !in l.toplevels || s == [] then |s|
    else if |s| == 1 then 0
    else if FirstIn(s, 1, l.resizes) == |s| - 1 then |s| - 1
    else |s|
  }

  /** A new widget without children, as a child of `p`. */
  function Created(l: Lists, p: Widget, w: Widget): Lists
    requires p in l.kids
  {
    l.(kids := l.kids[w := []][p := InsertedAt(l.kids[p], PlaceOf(l, p), w)])
  }

  /** A new toplevel with a resize button and a close button, as a child of `p`. */
  function CreatedToplevel(l: Lists, p: Widget, w: Widget, resize: Widget, quit: Widget): Lists
    requires p in l.kids
  {
    WithButtons(Created(l, p, w), w, resize, quit)
  }

  /** The list without a widget. */
  function Without(s: seq<Widget>, w: Widget): (t: seq<Widget>)
    ensures |t| <= |s| && forall c | c in t :: c in s && c != w
    ensures forall c | c in s && c != w :: c in t
  {
    if s == [] then []
    else
      var t := Without(s[..|s| - 1], w);
      if s[|s| - 1] == w then t else t + [s[|s| - 1]]
  }

  /** `x` is `w` or below it, by the lists. */
  ghost predicate UnderIn(l: Lists, x: Widget, w: Widget)
    decreases x.pickId
  {
    x == w || exists p :: p in l.kids && x in l.kids[p] && p.pickId < x.pickId && UnderIn(l, p, w)
  }

  /** Everything from `w` down is gone. */
  ghost function Destroyed(l: Lists, w: Widget): Lists {
    Lists(map p | p in l.kids && !UnderIn(l, p, w) :: Without(l.kids[p], w),
          set p | p in l.toplevels && !UnderIn(l, p, w), set p | p in l.resizes && !UnderIn(l, p, w))
  }

  datatype Op = Create(parent: Widget, w: Widget)
              | CreateToplevel(parent: Widget, w: Widget, resize: Widget, quit: Widget)
              | Destroy(w: Widget)

  /** The widget is not known yet. */
  predicate New(l: Lists, w: Widget) {
    w !in l.kids
  }

  predicate Legal(l: Lists, op: Op) {
    match op
    case Create(p, w) => p in l.kids && New(l, w)
    case CreateToplevel(p, w, resize, quit) =>
      p in l.kids && New(l, w) && New(l, resize) && New(l, quit) && w != resize && w != quit && resize != quit
    case Destroy(w) => w in l.kids
  }

  datatype Outcome = Crashed | Fine(lists: Lists)

  /** One operation; a create that finds no resize button crashes. */
  ghost function Step(l: Lists, op: Op): Outcome
    requires Legal(l, op)
  {
    match op
    case Create(p, w) => if FindsResize(l, p) then Fine(Created(l, p, w)) else Crashed
    case CreateToplevel(p, w, resize, quit) =>
      if FindsResize(l, p) then Fine(CreatedToplevel(l, p, w, resize, quit)) else Crashed
    case Destroy(w) => Fine(Destroyed(l, w))
  }

  /** Every operation of the run is on widgets that exist and creates new ones. */
  ghost predicate LegalRun(l: Lists, ops: seq<Op>)
    decreases |ops|, 0
  {
    ops == [] || (LegalRun(l, ops[..|ops| - 1])
                  && (Run(l, ops[..|ops| - 1]).Fine? ==> Legal(Run(l, ops[..|ops| - 1]).lists, ops[|ops| - 1])))
  }

  /** The lists after a run of operations. */
  ghost function Run(l: Lists, ops: seq<Op>): Outcome
    requires LegalRun(l, ops)
    decreases |ops|, 1
  {
    if ops == [] then Fine(l)
    else
      var before := Run(l, ops[..|ops| - 1]);
      if before.Crashed? then Crashed else Step(before.lists, ops[|ops| - 1])
  }

  // ----- runs that spare the resize buttons -----

  /** The last child is a resize button, and the only one. */
  ghost predicate EndsWithResize(s: seq<Widget>, resizes: set<Widget>) {
    s != [] && s[|s| - 1] in resizes && forall j | 0 <= j < |s| - 1 :: s[j] !in resizes
  }

  ghost predicate ResizeAtEnd(l: Lists) {
    forall p | p in l.toplevels :: p in l.kids && EndsWithResize(l.kids[p], l.resizes)
  }

  /** No operation of the run destroys a resize button other than with its toplevel. */
  ghost predicate SparesResizes(l: Lists, ops: seq<Op>)
    requires LegalRun(l, ops)
  {
    ops == [] || (SparesResizes(l, ops[..|ops| - 1])
                  && (Run(l, ops[..|ops| - 1]).Fine? && ops[|ops| - 1].Destroy? ==>
                        ops[|ops| - 1].w !in Run(l, ops[..|ops| - 1]).lists.resizes))
  }

  lemma EndFindsResize(l: Lists, p: Widget)
    requires p in l.kids && p in l.toplevels && EndsWithResize(l.kids[p], l.resizes)
    ensures FindsResize(l, p) && PlaceOf(l, p) == |l.kids[p]| - 1
  {
  }

  lemma CreatedKeepsEnd(l: Lists, p: Widget, w: Widget)
    requires l.Closed() && ResizeAtEnd(l) && p in l.kids && New(l, w)
    ensures FindsResize(l, p) && Created(l, p, w).Closed() && ResizeAtEnd(Created(l, p, w))
  {
    var m, k := Created(l, p, w), PlaceOf(l, p);
    InsertedFacts(l.kids[p], k, w);
    forall q | q in l.toplevels
      ensures EndsWithResize(m.kids[q], l.resizes)
    {
      if q == p {
        EndFindsResize(l, p);
      }
    }
  }

  lemma CreatedToplevelKeepsEnd(l: Lists, p: Widget, w: Widget, resize: Widget, quit: Widget)
    requires l.Closed() && ResizeAtEnd(l) && Legal(l, CreateToplevel(p, w, resize, quit))
    ensures FindsResize(l, p)
    ensures var m := CreatedToplevel(l, p, w, resize, quit); m.Closed() && ResizeAtEnd(m)
  {
    CreatedKeepsEnd(l, p, w);
    var c := Created(l, p, w);
    assert w in c.kids && c.kids[w] == [] && w !in c.toplevels;
    hide Created, Lists.Closed, ResizeAtEnd;
    WithButtonsKeepsEnd(c, w, resize, quit);
  }

  /** The lists with two buttons as the children of `w`, now a resizable toplevel. */
  function WithButtons(l: Lists, w: Widget, resize: Widget, quit: Widget): Lists {
    Lists(l.kids[resize := []][quit := []][w := [quit, resize]], l.toplevels + {w}, l.resizes + {resize})
  }

  lemma WithButtonsKeepsEnd(l: Lists, w: Widget, resize: Widget, quit: Widget)
    requires l.Closed() && ResizeAtEnd(l) && w in l.kids && l.kids[w] == [] && w !in l.toplevels
    requires New(l, resize) && New(l, quit) && resize != quit
    ensures WithButtons(l, w, resize, quit).Closed() && ResizeAtEnd(WithButtons(l, w, resize, quit))
  {
    var m := WithButtons(l, w, resize, quit);
    forall p, c | p in m.kids && c in m.kids[p]
      ensures c in m.kids && (c in {resize, quit} <==> p == w) && (p != w ==> p in l.kids && c in l.kids[p])
    {
    }
    forall p | p in l.toplevels
      ensures EndsWithResize(m.kids[p], m.resizes)
    {
      assert forall j | 0 <= j < |l.kids[p]| :: l.kids[p][j] in l.kids[p];
    }
    assert EndsWithResize(m.kids[w], m.resizes);
  }

  lemma WithoutKeepsEnd(s: seq<Widget>, w: Widget, resizes: set<Widget>)
    requires EndsWithResize(s, resizes) && w !in resizes
    ensures EndsWithResize(Without(s, w), resizes)
  {
    var t := Without(s[..|s| - 1], w);
    assert Without(s, w) == t + [s[|s| - 1]];
    assert forall j | 0 <= j < |t| :: t[j] in t && t[j] in s[..|s| - 1];
  }

  lemma {:induction false} WithoutDistinct(s: seq<Widget>, w: Widget)
    requires NoDuplicates(s)
    ensures NoDuplicates(Without(s, w))
    ensures w !in s ==> Without(s, w) == s
  {
    if s != [] {
      var init, last := s[..|s| - 1], s[|s| - 1];
      WithoutDistinct(init, w);
      assert s == init + [last];
      var t := Without(init, w);
      assert forall j | 0 <= j < |t| :: t[j] in t && t[j] in init;
    }
  }

  /** A child of a widget that stays stays too, unless it is the destroyed one. */
  lemma ChildStays(l: Lists, p: Widget, c: Widget, w: Widget)
    requires l.Closed() && p in l.kids && c in l.kids[p] && !UnderIn(l, p, w) && c != w
    ensures !UnderIn(l, c, w)
  {
  }

  lemma DestroyedKeepsClosed(l: Lists, w: Widget)
    requires l.Closed()
    ensures Destroyed(l, w).Closed()
  {
    hide UnderIn;
    var m := Destroyed(l, w);
    forall p | p in m.kids
      ensures NoDuplicates(m.kids[p]) && forall c | c in m.kids[p] :: c in m.kids
    {
      WithoutDistinct(l.kids[p], w);
      forall c | c in m.kids[p]
        ensures c in m.kids
      {
        ChildStays(l, p, c, w);
      }
    }
  }

  lemma DestroyedKeepsEnd(l: Lists, w: Widget)
    requires l.Closed() && ResizeAtEnd(l) && w !in l.resizes
    ensures ResizeAtEnd(Destroyed(l, w))
  {
    hide UnderIn;
    var m := Destroyed(l, w);
    forall p | p in m.toplevels
      ensures EndsWithResize(m.kids[p], m.resizes)
    {
      var s := l.kids[p];
      WithoutKeepsEnd(s, w, l.resizes);
      var t := Without(s, w);
      assert t[|t| - 1] in t;
      ChildStays(l, p, t[|t| - 1], w);
    }
  }

  /** Every run of creates and destroys that spares the resize buttons goes well, and leaves the resize
      button of each resizable toplevel its last child, drawn on top of the others. */
  lemma {:induction false} EveryRunEndsWithResize(l: Lists, ops: seq<Op>)
    requires l.Closed() && ResizeAtEnd(l) && LegalRun(l, ops) && SparesResizes(l, ops)
    ensures Run(l, ops).Fine? && Run(l, ops).lists.Closed() && ResizeAtEnd(Run(l, ops).lists)
  {
    if ops != [] {
      EveryRunEndsWithResize(l, ops[..|ops| - 1]);
      var m := Run(l, ops[..|ops| - 1]).lists;
      match ops[|ops| - 1]
      case Create(p, w) => CreatedKeepsEnd(m, p, w);
      case CreateToplevel(p, w, resize, quit) => CreatedToplevelKeepsEnd(m, p, w, resize, quit);
      case Destroy(w) => DestroyedKeepsClosed(m, w); DestroyedKeepsEnd(m, w);
    }
  }

  // ----- what keeps a resize button to be found -----

  ghost predicate HasResizeFrom(s: seq<Widget>, i: nat, resizes: set<Widget>) {
    exists j :: i <= j < |s| && s[j] in resizes
  }

  lemma FirstInFinds(s: seq<Widget>, i: nat, resizes: set<Widget>)
    requires i <= |s|
    ensures FirstIn(s, i, resizes) < |s| <==> HasResizeFrom(s, i, resizes)
  {
  }

  lemma FirstInInserted(s: seq<Widget>, k: nat, w: Widget, resizes: set<Widget>)
    requires |s| >= 1 && k <= |s| && w !in resizes
    ensures FirstIn(InsertedAt(s, k, w), 1, resizes) < |s| + 1 <==> HasResizeFrom(s, if k == 0 then 0 else 1, resizes)
  {
    hide FirstIn;
    var t := InsertedAt(s, k, w);
    FirstInFinds(t, 1, resizes);
    if j :| 1 <= j < |t| && t[j] in resizes {
      assert t[j] == s[if j < k then j else j - 1];
    }
    if j :| (if k == 0 then 0 else 1) <= j < |s| && s[j] in resizes {
      assert t[if j < k then j else j + 1] == s[j];
    }
  }

  /** Exactly when a create leaves a resize button to be found: unless it makes a single child that is
      no resize button the second. */
  lemma CreateKeepsExactly(l: Lists, p: Widget, w: Widget)
    requires l.Closed() && p in l.toplevels && p in l.kids && New(l, w) && FindsResize(l, p)
    ensures FindsResize(Created(l, p, w), p) <==> |l.kids[p]| != 1 || l.kids[p][0] in l.resizes
  {
    var s := l.kids[p];
    if |s| >= 1 {
      FirstInInserted(s, PlaceOf(l, p), w, l.resizes);
      FirstInFinds(s, 1, l.resizes);
    }
  }

  lemma {:induction false} WithoutIsRemoved(s: seq<Widget>, k: nat)
    requires NoDuplicates(s) && k < |s|
    ensures Without(s, s[k]) == RemovedAt(s, k)
  {
    var init := s[..|s| - 1];
    WithoutDistinct(init, s[k]);
    if k < |init| {
      WithoutIsRemoved(init, k);
      assert RemovedAt(s, k) == RemovedAt(init, k) + [s[|s| - 1]];
    } else {
      assert s[k] !in init by {
        assert forall j | 0 <= j < |init| :: init[j] == s[j];
      }
      assert RemovedAt(s, k) == init;
    }
  }

  /** Exactly when a destroy leaves a resize button to be found: at most one child remains, or a resize
      button other than the destroyed child and than the child that is then the first. */
  lemma DestroyKeepsExactly(l: Lists, p: Widget, k: nat)
    requires l.Closed() && p in l.toplevels && p in l.kids && k < |l.kids[p]| && !UnderIn(l, p, l.kids[p][k])
    ensures var s := l.kids[p];
            p in Destroyed(l, s[k]).kids
            && (FindsResize(Destroyed(l, s[k]), p)
                <==> |s| <= 2 || exists i :: 0 <= i < |s| && i != k && i != (if k == 0 then 1 else 0) && s[i] in l.resizes)
  {
    hide UnderIn, Without, FirstIn;
    var s, m := l.kids[p], Destroyed(l, l.kids[p][k]);
    WithoutIsRemoved(s, k);
    var t := RemovedAt(s, k);
    forall c | c in s && c != s[k]
      ensures c in m.resizes <==> c in l.resizes
    {
      ChildStays(l, p, c, s[k]);
    }
    if |t| >= 2 {
      FirstInFinds(t, 1, m.resizes);
      HasResizeRemoved(s, k, l.resizes, m.resizes);
    }
  }

  lemma HasResizeRemoved(s: seq<Widget>, k: nat, before: set<Widget>, after: set<Widget>)
    requires NoDuplicates(s) && k < |s| && forall c | c in s && c != s[k] :: c in after <==> c in before
    ensures HasResizeFrom(RemovedAt(s, k), 1, after)
            <==> exists i :: 0 <= i < |s| && i != k && i != (if k == 0 then 1 else 0) && s[i] in before
  {
    var t := RemovedAt(s, k);
    if j :| 1 <= j < |t| && t[j] in after {
      var i := if j < k then j else j + 1;
      assert t[j] == s[i] && s[i] != s[k];
    }
    if i :| 0 <= i < |s| && i != k && i != (if k == 0 then 1 else 0) && s[i] in before {
      assert t[if i < k then i else i - 1] == s[i] && s[i] != s[k];
    }
  }

  lemma RunOneMore(l: Lists, ops: seq<Op>, op: Op)
    requires LegalRun(l, ops) && Run(l, ops).Fine? && Legal(Run(l, ops).lists, op)
    ensures LegalRun(l, ops + [op]) && Run(l, ops + [op]) == Step(Run(l, ops).lists, op)
  {
    hide Step, Legal;
    assert (ops + [op])[..|ops|] == ops;
  }

  /** Nothing but itself is below a widget without children. */
  lemma {:induction false} LeafUnder(l: Lists, x: Widget, w: Widget)
    requires w in l.kids && l.kids[w] == []
    ensures UnderIn(l, x, w) <==> x == w
    decreases x.pickId
  {
    if x != w && UnderIn(l, x, w) {
      var p :| p in l.kids && x in l.kids[p] && p.pickId < x.pickId && UnderIn(l, p, w);
      LeafUnder(l, p, w);
    }
  }

  lemma FirstToplevel(l: Lists, root: Widget, top: Widget, resize: Widget, quit: Widget)
    requires l == Lists(map[root := []], {}, {})
    requires root != top && root != resize && root != quit && top != resize && top != quit && resize != quit
    ensures Step(l, CreateToplevel(root, top, resize, quit))
         == Fine(Lists(map[root := [top], top := [quit, resize], resize := [], quit := []], {top}, {resize}))
  {
    assert InsertedAt([], 0, top) == [top];
    assert CreatedToplevel(l, root, top, resize, quit).kids
        == map[root := [top], top := [quit, resize], resize := [], quit := []];
  }

  lemma ResizeGone(l: Lists, root: Widget, top: Widget, resize: Widget, quit: Widget)
    requires root != top && root != resize && root != quit && top != resize && top != quit && resize != quit
    requires l == Lists(map[root := [top], top := [quit, resize], resize := [], quit := []], {top}, {resize})
    ensures Step(l, Destroy(resize)) == Fine(Lists(map[root := [top], top := [quit], quit := []], {top}, {}))
  {
    forall x
      ensures UnderIn(l, x, resize) <==> x == resize
    {
      LeafUnder(l, x, resize);
    }
    hide UnderIn;
    assert [quit, resize][..1] == [quit] && [quit][..0] == [] && [top][..0] == [];
    assert Without([top], resize) == [top] && Without([quit], resize) == [quit];
    assert Without([quit, resize], resize) == [quit];
    assert Destroyed(l, resize).kids == map[root := [top], top := [quit], quit := []];
  }

  lemma TwoMore(l: Lists, root: Widget, top: Widget, quit: Widget, a: Widget, b: Widget)
    requires root != top && root != quit && top != quit && a !in {root, top, quit} && b !in {root, top, quit, a}
    requires l == Lists(map[root := [top], top := [quit], quit := []], {top}, {})
    ensures var m := Lists(map[root := [top], top := [a, quit], quit := [], a := []], {top}, {});
            Step(l, Create(top, a)) == Fine(m) && Legal(m, Create(top, b)) && Step(m, Create(top, b)).Crashed?
  {
    assert InsertedAt([quit], 0, a) == [a, quit];
    assert Created(l, top, a).kids == map[root := [top], top := [a, quit], quit := [], a := []];
    assert FirstIn([a, quit], 1, {}) == 2;
  }

  /** A run that crashes: the resize button of a toplevel is destroyed by itself, and two more widgets
      are created in the toplevel. */
  lemma DestroyedResizeCrashes(l: Lists, root: Widget, top: Widget, resize: Widget, quit: Widget, a: Widget, b: Widget)
    requires l == Lists(map[root := []], {}, {})
    requires root != top && root != resize && root != quit && top != resize && top != quit && resize != quit
    requires a !in {root, top, resize, quit} && b !in {root, top, resize, quit, a}
    ensures var ops := [] + [CreateToplevel(root, top, resize, quit)] + [Destroy(resize)] + [Create(top, a)] + [Create(top, b)];
            l.Closed() && ResizeAtEnd(l) && LegalRun(l, ops) && Run(l, ops).Crashed?
  {
    var o1, o2, o3, o4 := CreateToplevel(root, top, resize, quit), Destroy(resize), Create(top, a), Create(top, b);
    FirstToplevel(l, root, top, resize, quit);
    var l1 := Step(l, o1).lists;
    ResizeGone(l1, root, top, resize, quit);
    var l2 := Step(l1, o2).lists;
    TwoMore(l2, root, top, quit, a, b);
    hide Step;
    var none: seq<Op> := [];
    RunOneMore(l, none, o1);
    RunOneMore(l, none + [o1], o2);
    RunOneMore(l, none + [o1] + [o2], o3);
    RunOneMore(l, none + [o1] + [o2] + [o3], o4);
  }
}
