/** The picture a widget tree paints under nested clips, and the widget that is on top of a pixel. */
module Picture {
  import opened Geometry
  import opened Surfaces

  /** What drawing needs to know of a widget: the value it leaves in the pick surface, whether it is
      managed, the pixels it paints before clipping, where its children may paint, and the clip that a
      close button has in place of its parent's. */
  datatype Info = Info(ink: nat, mapped: bool, outline: set<Point>, content: Rect, own: Option<Rect>) {

    /** The clip under which the widget itself is painted. */
    function Reach(clip: Rect): Rect {
      if own.Some? then own.value else clip
    }
  }

  /** Siblings in drawing order, each with its children. */
  datatype Forest = Nil | Cons(info: Info, kids: Forest, next: Forest)

  /** The value left at pixel `p`, starting from `under`, when the forest is drawn in a clip:
      each managed widget paints inside the clip, then its children inside its content. */
  function Painted(f: Forest, clip: Rect, p: Point, under: nat): nat
    decreases f, 0
  {
    match f
    case Nil => under
    case Cons(w, kids, next) =>
      if !w.mapped then Painted(next, clip, p, under)
      else
        var on := if w.Reach(clip).Contains(p) && p in w.outline then w.ink else under;
        Painted(next, clip, p, PaintedIn(kids, Intersection(clip, w.content), p, on))
  }

  /** Drawing children is skipped altogether under a clip of negative size. */
  function PaintedIn(f: Forest, clip: Rect, p: Point, under: nat): nat
    decreases f, 1
  {
    if NotNegative(clip) then Painted(f, clip, p, under) else under
  }

  // ----- the topmost widget -----

  /** The clip under the contents of a chain of ancestors, the innermost last. */
  function ClipUnder(window: Rect, above: seq<Info>): Rect {
    if above == [] then window
    else Intersection(ClipUnder(window, above[..|above| - 1]), above[|above| - 1].content)
  }

  predicate NotNegative(clip: Rect) {
    clip.size.width >= 0 && clip.size.height >= 0
  }

  /** Drawing gets to the children of the innermost ancestor: all are managed, and no clip on the way
      has a negative size. */
  predicate Reached(window: Rect, above: seq<Info>) {
    NotNegative(ClipUnder(window, above))
    && (above == [] || (Reached(window, above[..|above| - 1]) && above[|above| - 1].mapped))
  }

  /** A widget of the tree with its chain of ancestors. */
  datatype Entry = Entry(info: Info, above: seq<Info>) {

    /** The widget shows at `p`: drawing gets to it, it is managed, and its own pixels and its clip
        include `p`. */
    predicate Shows(window: Rect, p: Point) {
      info.mapped && p in info.outline && Reached(window, above)
      && info.Reach(ClipUnder(window, above)).Contains(p)
    }
  }

  /** The clip under a chain of ancestors is what their contents have in common. */
  lemma {:induction false} ClipUnderExactly(window: Rect, above: seq<Info>, p: Point)
    ensures ClipUnder(window, above).Contains(p)
            <==> window.Contains(p) && forall k | 0 <= k < |above| :: above[k].content.Contains(p)
  {
    if above != [] {
      var init, last := above[..|above| - 1], above[|above| - 1];
      ClipUnderExactly(window, init, p);
      IntersectionIsExact(ClipUnder(window, init), last.content);
      assert forall k | 0 <= k < |above| :: above[k] == if k < |init| then init[k] else last;
    }
  }

  lemma {:induction false} ReachedWhereClipped(window: Rect, above: seq<Info>, p: Point)
    requires ClipUnder(window, above).Contains(p)
    ensures Reached(window, above) <==> forall k | 0 <= k < |above| :: above[k].mapped
  {
    if above != [] {
      var init, last := above[..|above| - 1], above[|above| - 1];
      IntersectionIsExact(ClipUnder(window, init), last.content);
      ReachedWhereClipped(window, init, p);
      assert forall k | 0 <= k < |above| :: above[k] == if k < |init| then init[k] else last;
    }
  }

  /** A widget with no clip of its own shows exactly where it and all its ancestors are managed, its
      own pixels include the point, and so do the window and the content of every ancestor. */
  lemma ShowsExactly(e: Entry, window: Rect, p: Point)
    requires e.info.own == None
    ensures e.Shows(window, p) <==>
              && e.info.mapped && p in e.info.outline && window.Contains(p)
              && forall k | 0 <= k < |e.above| :: e.above[k].mapped && e.above[k].content.Contains(p)
  {
    ClipUnderExactly(window, e.above, p);
    if ClipUnder(window, e.above).Contains(p) {
      ReachedWhereClipped(window, e.above, p);
    }
  }

  /** All widgets of the forest, parents before children, siblings in order. */
  function Preorder(f: Forest, above: seq<Info>): seq<Entry> {
    match f
    case Nil => []
    case Cons(w, kids, next) => [Entry(w, above)] + Preorder(kids, above + [w]) + Preorder(next, above)
  }

  /** The value of the last entry that shows at `p`. */
  ghost function Topmost(es: seq<Entry>, window: Rect, p: Point, under: nat): nat {
    if es == [] then under
    else if es[|es| - 1].Shows(window, p) then es[|es| - 1].info.ink
    else Topmost(es[..|es| - 1], window, p, under)
  }

  lemma {:induction false} TopmostConcat(a: seq<Entry>, b: seq<Entry>, window: Rect, p: Point, under: nat)
    ensures Topmost(a + b, window, p, under) == Topmost(b, window, p, Topmost(a, window, p, under))
  {
    if b == [] {
      assert a + b == a;
    } else {
      assert (a + b)[..|a + b| - 1] == a + b[..|b| - 1];
      TopmostConcat(a, b[..|b| - 1], window, p, under);
    }
  }

  /** `Topmost` names the last entry that shows, by quantifiers. */
  lemma {:induction false} TopmostIsLast(es: seq<Entry>, window: Rect, p: Point, under: nat)
    ensures (exists i :: LastShown(es, window, p, i) && Topmost(es, window, p, under) == es[i].info.ink)
            || ((forall i | 0 <= i < |es| :: !es[i].Shows(window, p)) && Topmost(es, window, p, under) == under)
  {
    if es != [] {
      var init := es[..|es| - 1];
      if es[|es| - 1].Shows(window, p) {
        assert LastShown(es, window, p, |es| - 1);
      } else {
        TopmostIsLast(init, window, p, under);
        if i :| LastShown(init, window, p, i) && Topmost(init, window, p, under) == init[i].info.ink {
          assert forall j | i < j < |es| :: j < |init| ==> !init[j].Shows(window, p);
          assert LastShown(es, window, p, i);
        } else {
          assert forall i | 0 <= i < |es| :: i < |init| ==> es[i] == init[i];
        }
      }
    }
  }

  ghost predicate LastShown(es: seq<Entry>, window: Rect, p: Point, i: int) {
    0 <= i < |es| && es[i].Shows(window, p) && forall j | i < j < |es| :: !es[j].Shows(window, p)
  }

  lemma GrowsBy(window: Rect, above: seq<Info>, w: Info)
    ensures ClipUnder(window, above + [w]) == Intersection(ClipUnder(window, above), w.content)
    ensures Reached(window, above + [w])
            <==> Reached(window, above) && w.mapped && NotNegative(Intersection(ClipUnder(window, above), w.content))
  {
    assert (above + [w])[..|above|] == above;
  }

  lemma {:induction false} ClosedShowsNothing(f: Forest, above: seq<Info>, window: Rect, p: Point, under: nat)
    requires !Reached(window, above)
    ensures Topmost(Preorder(f, above), window, p, under) == under
  {
    match f
    case Nil =>
    case Cons(w, kids, next) =>
      GrowsBy(window, above, w);
      var e := [Entry(w, above)];
      ClosedShowsNothing(kids, above + [w], window, p, under);
      ClosedShowsNothing(next, above, window, p, under);
      TopmostConcat(e, Preorder(kids, above + [w]), window, p, under);
      TopmostConcat(e + Preorder(kids, above + [w]), Preorder(next, above), window, p, under);
      TopmostOfOne(e[0], window, p, under);
  }

  lemma TopmostOfOne(e: Entry, window: Rect, p: Point, under: nat)
    ensures Topmost([e], window, p, under) == if e.Shows(window, p) then e.info.ink else under
  {
    assert [e][..0] == [];
  }

  /** Drawing paints exactly the topmost widget, close buttons included. */
  lemma {:induction false} PaintedIsTopmost(f: Forest, above: seq<Info>, window: Rect, p: Point, under: nat)
    requires Reached(window, above)
    ensures Painted(f, ClipUnder(window, above), p, under) == Topmost(Preorder(f, above), window, p, under)
    decreases f, 0
  {
    hide Intersection, ClipUnder, Reached;
    match f
    case Nil =>
    case Cons(w, kids, next) =>
      var e := [Entry(w, above)];
      var on := Topmost(e, window, p, under);
      TopmostOfOne(e[0], window, p, under);
      KidsAreTopmost(w, kids, above, window, p, on);
      PaintedIsTopmost(next, above, window, p, Topmost(Preorder(kids, above + [w]), window, p, on));
      TopmostConcat(e, Preorder(kids, above + [w]), window, p, under);
      TopmostConcat(e + Preorder(kids, above + [w]), Preorder(next, above), window, p, under);
  }

  lemma {:induction false} KidsAreTopmost(w: Info, kids: Forest, above: seq<Info>, window: Rect, p: Point, on: nat)
    requires Reached(window, above)
    ensures Topmost(Preorder(kids, above + [w]), window, p, on)
         == if w.mapped then PaintedIn(kids, Intersection(ClipUnder(window, above), w.content), p, on) else on
    decreases kids, 1
  {
    GrowsBy(window, above, w);
    if Reached(window, above + [w]) {
      PaintedIsTopmost(kids, above + [w], window, p, on);
    } else {
      ClosedShowsNothing(kids, above + [w], window, p, on);
    }
  }

  // ----- redrawing under a clip -----

  /** No widget has a clip of its own. */
  ghost predicate AllClipped(f: Forest) {
    match f
    case Nil => true
    case Cons(w, kids, next) => w.own == None && AllClipped(kids) && AllClipped(next)
  }

  /** At a pixel, only whether the clip contains it matters. */
  lemma {:induction false} PaintedDependsOnPixel(f: Forest, a: Rect, b: Rect, p: Point, under: nat)
    requires a.Contains(p) && b.Contains(p) && AllClipped(f)
    ensures Painted(f, a, p, under) == Painted(f, b, p, under)
  {
    match f
    case Nil =>
    case Cons(w, kids, next) =>
      var own := if p in w.outline then w.ink else under;
      IntersectionIsExact(a, w.content);
      IntersectionIsExact(b, w.content);
      var x, y := Intersection(a, w.content), Intersection(b, w.content);
      if w.content.Contains(p) {
        PaintedDependsOnPixel(kids, x, y, p, own);
      } else {
        PaintedOutside(kids, x, p, own);
        PaintedOutside(kids, y, p, own);
      }
      var on := if w.mapped then PaintedIn(kids, x, p, own) else under;
      PaintedDependsOnPixel(next, a, b, p, on);
  }

  /** Nothing is painted outside the clip. */
  lemma {:induction false} PaintedOutside(f: Forest, clip: Rect, p: Point, under: nat)
    requires !clip.Contains(p) && AllClipped(f)
    ensures Painted(f, clip, p, under) == PaintedIn(f, clip, p, under) == under
  {
    match f
    case Nil =>
    case Cons(w, kids, next) =>
      IntersectionIsExact(clip, w.content);
      PaintedOutside(kids, Intersection(clip, w.content), p, under);
      PaintedOutside(next, clip, p, under);
  }

  /** The root paints under the clip, then the tree does. */
  function Drawn(root: Info, kids: Forest, clip: Rect, p: Point, under: nat): nat {
    PaintedIn(kids, clip, p, if root.Reach(clip).Contains(p) && p in root.outline then root.ink else under)
  }

  /** Redrawing under a clip changes no pixel outside, and gives every pixel inside the value
      of a full drawing, as long as no widget has a clip of its own. */
  lemma RedrawRefinesDraw(root: Info, kids: Forest, clip: Rect, full: Rect, p: Point, under: nat, before: nat)
    requires full.Contains(p) && p in root.outline && root.own == None && AllClipped(kids)
    ensures Drawn(root, kids, clip, p, under) == if clip.Contains(p) then Drawn(root, kids, full, p, before) else under
  {
    if clip.Contains(p) {
      PaintedDependsOnPixel(kids, clip, full, p, root.ink);
    } else {
      PaintedOutside(kids, clip, p, under);
    }
  }

  // ----- redrawing with close buttons -----

  lemma {:induction false} NarrowerClip(clip: Rect, full: Rect, above: seq<Info>)
    requires EdgesWithin(clip, full)
    ensures EdgesWithin(ClipUnder(clip, above), ClipUnder(full, above))
    ensures Reached(clip, above) ==> Reached(full, above)
  {
    if above != [] {
      NarrowerClip(clip, full, above[..|above| - 1]);
    }
  }

  /** What shows under a clip shows under a larger one. */
  lemma ShowsInLarger(e: Entry, clip: Rect, full: Rect, p: Point)
    requires EdgesWithin(clip, full) && e.Shows(clip, p)
    ensures e.Shows(full, p)
  {
    NarrowerClip(clip, full, e.above);
  }

  /** The widgets leave different values, and none that of the root. */
  ghost predicate InksApart(es: seq<Entry>, ink: nat) {
    forall i | 0 <= i < |es| :: es[i].info.ink != ink && forall j | i < j < |es| :: es[i].info.ink != es[j].info.ink
  }

  /** A redraw under the clip changes the pixel: the clip contains it, or a widget shows there all the same. */
  ghost predicate Touches(es: seq<Entry>, clip: Rect, p: Point) {
    clip.Contains(p) || exists i :: 0 <= i < |es| && es[i].Shows(clip, p)
  }

  /** The widget that a full drawing shows at the pixel shows under the clip too, or none shows at all and the
      root is redrawn there. */
  ghost predicate Restores(es: seq<Entry>, clip: Rect, full: Rect, p: Point) {
    (exists i :: LastShown(es, full, p, i) && es[i].Shows(clip, p))
    || (clip.Contains(p) && forall i | 0 <= i < |es| :: !es[i].Shows(full, p))
  }

  /** Exactly when redrawing under a clip makes a pixel right or leaves it right, close buttons or not: if the
      redraw touches it, it has to restore it, and if not, it has to be right already. */
  lemma RedrawExactly(root: Info, kids: Forest, clip: Rect, full: Rect, p: Point, under: nat, before: nat)
    requires full.Contains(p) && p in root.outline && root.own == None && EdgesWithin(clip, full)
    requires InksApart(Preorder(kids, []), root.ink)
    ensures var es, right := Preorder(kids, []), Drawn(root, kids, full, p, before);
            Drawn(root, kids, clip, p, under) == right <==>
              if Touches(es, clip, p) then Restores(es, clip, full, p) else under == right
  {
    hide Painted, Preorder, Entry.Shows, Topmost;
    var es := Preorder(kids, []);
    var on := if clip.Contains(p) then root.ink else under;
    forall i | 0 <= i < |es| && es[i].Shows(clip, p)
      ensures es[i].Shows(full, p)
    {
      ShowsInLarger(es[i], clip, full, p);
    }
    DrawnTopmost(root, kids, full, p, root.ink);
    DrawnTopmost(root, kids, clip, p, on);
    TopmostIsLast(es, full, p, root.ink);
    TopmostIsLast(es, clip, p, on);
  }

  lemma DrawnTopmost(root: Info, kids: Forest, clip: Rect, p: Point, on: nat)
    ensures PaintedIn(kids, clip, p, on) == Topmost(Preorder(kids, []), clip, p, on)
  {
    if NotNegative(clip) {
      PaintedIsTopmost(kids, [], clip, p, on);
    } else {
      ClosedShowsNothing(kids, [], clip, p, on);
    }
  }

  /** A close button shows through: any redraw that reaches its parent paints the button again, also
      outside the redrawn rectangle, over a widget that is above it. */
  lemma CloseButtonShowsThrough(top: Info, close: Info, other: Info, clip: Rect, full: Rect, p: Point, under: nat)
    requires top.mapped && top.own == None && close.mapped && close.own.Some? && other.mapped && other.own == None
    requires p in close.outline && close.own.value.Contains(p) && p in other.outline
    requires full.Contains(p) && !clip.Contains(p)
    requires NotNegative(Intersection(clip, top.content)) && NotNegative(Intersection(full, top.content))
    ensures var f := Cons(top, Cons(close, Nil, Nil), Cons(other, Nil, Nil));
            && Painted(f, full, p, under) == other.ink
            && Painted(f, clip, p, other.ink) == close.ink
  {
    hide Intersection, Painted;
    PaintedNode(top, Cons(close, Nil, Nil), Cons(other, Nil, Nil), full, p, under);
    PaintedNode(top, Cons(close, Nil, Nil), Cons(other, Nil, Nil), clip, p, other.ink);
    LeafPainted(close, Intersection(clip, top.content), p, other.ink);
    LeafPainted(other, clip, p, close.ink);
    forall u: nat
      ensures Painted(Cons(other, Nil, Nil), full, p, u) == other.ink
    {
      LeafPainted(other, full, p, u);
    }
  }

  /** A redraw that does not reach the content of a toplevel erases its close button: the frame is filled
      again, and the button is not painted. */
  lemma CloseButtonErased(top: Info, close: Info, clip: Rect, full: Rect, p: Point, under: nat)
    requires top.mapped && top.own == None && close.mapped && close.own.Some?
    requires p in close.outline && close.own.value.Contains(p) && p in top.outline
    requires full.Contains(p) && clip.Contains(p)
    requires !NotNegative(Intersection(clip, top.content)) && NotNegative(Intersection(full, top.content))
    ensures var f := Cons(top, Cons(close, Nil, Nil), Nil);
            && Painted(f, full, p, under) == close.ink
            && Painted(f, clip, p, close.ink) == top.ink
  {
    hide Intersection;
    PaintedNode(top, Cons(close, Nil, Nil), Nil, full, p, under);
    PaintedNode(top, Cons(close, Nil, Nil), Nil, clip, p, close.ink);
    LeafPainted(close, Intersection(full, top.content), p, top.ink);
  }

  /** A toplevel at the origin of a window of 640 by 480, with its close button, and a widget above both. */
  ghost function ExampleTop(): Info {
    Info(1, true, PixelsOf(Rect(Point(0, 0), Size(108, 134))), Rect(Point(4, 30), Size(100, 100)), None)
  }

  ghost function ExampleClose(): Info {
    Info(2, true, PixelsOf(Rect(Point(10, 9), Size(10, 10))), Rect(Point(14, 13), Size(2, 2)), Some(WindowRect(Size(640, 480))))
  }

  ghost function ExampleOther(): Info {
    Info(3, true, PixelsOf(Rect(Point(0, 0), Size(50, 50))), Rect(Point(0, 0), Size(50, 50)), None)
  }

  /** Redrawing ten pixels of the content paints the button over the widget above it. */
  lemma ShowsThroughExample(under: nat)
    ensures var f := Cons(ExampleTop(), Cons(ExampleClose(), Nil, Nil), Cons(ExampleOther(), Nil, Nil));
            && Painted(f, WindowRect(Size(640, 480)), Point(12, 12), under) == 3
            && Painted(f, Rect(Point(60, 60), Size(10, 10)), Point(12, 12), 3) == 2
  {
    CloseButtonShowsThrough(ExampleTop(), ExampleClose(), ExampleOther(), Rect(Point(60, 60), Size(10, 10)),
                            WindowRect(Size(640, 480)), Point(12, 12), under);
  }

  /** Redrawing a part of the top bar erases the button. */
  lemma ErasedExample(under: nat)
    ensures var f := Cons(ExampleTop(), Cons(ExampleClose(), Nil, Nil), Nil);
            && Painted(f, WindowRect(Size(640, 480)), Point(12, 12), under) == 2
            && Painted(f, Rect(Point(0, 0), Size(50, 25)), Point(12, 12), 2) == 1
  {
    CloseButtonErased(ExampleTop(), ExampleClose(), Rect(Point(0, 0), Size(50, 25)), WindowRect(Size(640, 480)),
                      Point(12, 12), under);
  }

  lemma PaintedNode(w: Info, kids: Forest, next: Forest, clip: Rect, p: Point, under: nat)
    requires w.mapped
    ensures Painted(Cons(w, kids, next), clip, p, under)
         == Painted(next, clip, p, PaintedIn(kids, Intersection(clip, w.content), p,
                                             if w.Reach(clip).Contains(p) && p in w.outline then w.ink else under))
  {
  }

  lemma LeafPainted(w: Info, clip: Rect, p: Point, under: nat)
    requires w.mapped
    ensures Painted(Cons(w, Nil, Nil), clip, p, under)
         == if w.Reach(clip).Contains(p) && p in w.outline then w.ink else under
  {
    PaintedNode(w, Nil, Nil, clip, p, under);
  }

  /** The value of a pixel after redrawing a list of rectangles, one after the other. */
  function Redrawn(root: Info, kids: Forest, clips: seq<Rect>, p: Point, under: nat): nat {
    if clips == [] then under
    else Drawn(root, kids, clips[|clips| - 1], p, Redrawn(root, kids, clips[..|clips| - 1], p, under))
  }

  /** After the whole list, every listed pixel has the value of a full drawing. */
  lemma {:induction false} RedrawnListed(root: Info, kids: Forest, clips: seq<Rect>, full: Rect, p: Point,
                                         under: nat, before: nat)
    requires full.Contains(p) && p in root.outline && root.own == None && AllClipped(kids)
    ensures Redrawn(root, kids, clips, p, under)
         == if exists k :: 0 <= k < |clips| && clips[k].Contains(p) then Drawn(root, kids, full, p, before) else under
  {
    if clips != [] {
      var init, last := clips[..|clips| - 1], clips[|clips| - 1];
      RedrawnListed(root, kids, init, full, p, under, before);
      RedrawRefinesDraw(root, kids, last, full, p, Redrawn(root, kids, init, p, under), before);
      if k :| 0 <= k < |init| && init[k].Contains(p) {
        assert clips[k].Contains(p);
      }
      if k :| 0 <= k < |clips| && clips[k].Contains(p) {
        assert k < |init| ==> init[k].Contains(p);
      }
    }
  }

  /** The last clip of the list that touches the pixel. */
  ghost predicate LastTouching(es: seq<Entry>, clips: seq<Rect>, p: Point, k: int) {
    0 <= k < |clips| && Touches(es, clips[k], p) && forall j | k < j < |clips| :: !Touches(es, clips[j], p)
  }

  /** Exactly when processing a list of clips makes a pixel right, close buttons or not: the last clip that
      touches it restores it, or none touches it and it is right already. */
  lemma {:induction false} RedrawnExactly(root: Info, kids: Forest, clips: seq<Rect>, full: Rect, p: Point,
                                          under: nat, before: nat)
    requires full.Contains(p) && p in root.outline && root.own == None && InksApart(Preorder(kids, []), root.ink)
    requires forall k | 0 <= k < |clips| :: EdgesWithin(clips[k], full)
    ensures var es, right := Preorder(kids, []), Drawn(root, kids, full, p, before);
            Redrawn(root, kids, clips, p, under) == right <==>
              (exists k :: LastTouching(es, clips, p, k) && Restores(es, clips[k], full, p))
              || ((forall k | 0 <= k < |clips| :: !Touches(es, clips[k], p)) && under == right)
  {
    hide Drawn, Preorder, Touches, Restores, InksApart, EdgesWithin;
    if clips != [] {
      var es, right := Preorder(kids, []), Drawn(root, kids, full, p, before);
      var init, last := clips[..|clips| - 1], clips[|clips| - 1];
      RedrawnExactly(root, kids, init, full, p, under, before);
      RedrawExactly(root, kids, last, full, p, Redrawn(root, kids, init, p, under), before);
      if Touches(es, last, p) {
        assert LastTouching(es, clips, p, |clips| - 1);
      } else {
        assert forall k :: LastTouching(es, clips, p, k) <==> LastTouching(es, init, p, k);
      }
    }
  }
}
