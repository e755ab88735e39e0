/** The list of invalidated rectangles: a linked list edited in place between two redraws. */
module Invalidation {
  import opened Geometry

  /** The test that lets a new rectangle merge with the last one of the list. */
  predicate Merges(last: Rect, r: Rect) {
    last.topLeft.x - r.topLeft.x < Half(Max(last.size.width, r.size.width)) &&
    last.topLeft.y - r.topLeft.y < Half(Max(last.size.height, r.size.height))
  }

  /** The list with one more rectangle, merged with the last one or behind it. */
  function WithRect(list: seq<Rect>, c: Rect): seq<Rect> {
    if list == [] then [c]
    else if Merges(list[|list| - 1], c) then list[..|list| - 1] + [Around(list[|list| - 1], c)]
    else list + [c]
  }

  /** A rectangle merges with the last one exactly if, in both directions, it starts before that one by less than
      half the longer side of the two, truncated, if it does at all; otherwise it goes behind it. */
  lemma MergesExactly(last: Rect, r: Rect)
    ensures Merges(last, r) <==>
              StartsSoon(last.Left() - r.Left(), Max(last.size.width, r.size.width))
              && StartsSoon(last.Top() - r.Top(), Max(last.size.height, r.size.height))
  {
  }

  predicate StartsSoon(before: int, side: int) {
    2 * before + (if side >= 0 then 2 else 1) <= side
  }

  /** What one invalidation makes of the list. */
  function Invalidated(list: seq<Rect>, r: Rect, window: Size): seq<Rect> {
    WithRect(list, Clipped(r, window))
  }

  /** The rectangles before the last one stay, and the last one stays too, with the new one behind it, or becomes
      the one around both. */
  lemma OthersStay(list: seq<Rect>, r: Rect, window: Size)
    requires list != []
    ensures var n, next, c := |list| - 1, Invalidated(list, r, window), Clipped(r, window);
            && |next| == (if Merges(list[n], c) then n + 1 else n + 2) && next[..n] == list[..n]
            && (|next| == n + 1 ==> next[n] == Around(list[n], c))
            && (|next| == n + 2 ==> next[n] == list[n] && next[n + 1] == c)
  {
  }

  predicate Covers(list: seq<Rect>, p: Point) {
    exists k :: 0 <= k < |list| && list[k].Contains(p)
  }

  ghost predicate AllWithin(list: seq<Rect>, window: Size) {
    forall k | 0 <= k < |list| :: Within(list[k], window)
  }

  /** One invalidation keeps every pixel listed so far and adds every window pixel of its own. */
  lemma InvalidatedCovers(list: seq<Rect>, r: Rect, window: Size, p: Point)
    requires Covers(list, p) || (r.Contains(p) && WindowRect(window).Contains(p))
    ensures Covers(Invalidated(list, r, window), p)
  {
    var c := Clipped(r, window);
    var next := Invalidated(list, r, window);
    if Covers(list, p) {
      var k :| 0 <= k < |list| && list[k].Contains(p);
      assert next[k].Contains(p);
    } else {
      assert next[|next| - 1].Contains(p);
    }
  }

  lemma InvalidatedWithin(list: seq<Rect>, r: Rect, window: Size)
    requires AllWithin(list, window)
    ensures AllWithin(Invalidated(list, r, window), window)
  {
  }

  /** The list after a sequence of invalidations since the last redraw. */
  function AfterAll(rs: seq<Rect>, window: Size): seq<Rect> {
    if rs == [] then [] else Invalidated(AfterAll(rs[..|rs| - 1], window), rs[|rs| - 1], window)
  }

  /** No pixel is lost: whatever was invalidated inside the window is listed, and the list
      stays within the window, through any number of merges. */
  lemma {:induction false} NothingIsLost(rs: seq<Rect>, window: Size)
    ensures AllWithin(AfterAll(rs, window), window)
    ensures forall k, p | 0 <= k < |rs| && rs[k].Contains(p) && WindowRect(window).Contains(p) ::
              Covers(AfterAll(rs, window), p)
  {
    if rs != [] {
      var init, last := rs[..|rs| - 1], rs[|rs| - 1];
      NothingIsLost(init, window);
      InvalidatedWithin(AfterAll(init, window), last, window);
      forall k, p | 0 <= k < |rs| && rs[k].Contains(p) && WindowRect(window).Contains(p)
        ensures Covers(AfterAll(rs, window), p)
      {
        assert k < |rs| - 1 ==> init[k] == rs[k];
        InvalidatedCovers(AfterAll(init, window), last, window, p);
      }
    }
  }

  class LinkedRect {
    var rect: Rect
    var next: LinkedRect?

    constructor (rect: Rect)
      ensures this.rect == rect && next == null
    {
      this.rect := rect;
      next := null;
    }
  }

  class RectList {
    const window: Size
    var head: LinkedRect?
    ghost var nodes: seq<LinkedRect>

    constructor (window: Size)
      ensures Valid() && this.window == window && Rects() == [] && nodes == []
    {
      this.window := window;
      head := null;
      nodes := [];
    }

    ghost predicate Valid()
      reads this, nodes
    {
      && head == (if nodes == [] then null else nodes[0])
      && (forall i | 0 <= i < |nodes| :: Linked(i))
      && (forall i, j | 0 <= i < j < |nodes| :: nodes[i] != nodes[j])
    }

    ghost predicate Linked(i: nat)
      reads this, nodes
      requires i < |nodes|
    {
      nodes[i].next == if i + 1 < |nodes| then nodes[i + 1] else null
    }

    /** The rectangles of the first `n` nodes. */
    ghost function RectsOf(n: nat): (s: seq<Rect>)
      reads this, nodes
      requires n <= |nodes|
      ensures |s| == n && forall i | 0 <= i < n :: s[i] == nodes[i].rect
    {
      if n == 0 then [] else RectsOf(n - 1) + [nodes[n - 1].rect]
    }

    ghost function Rects(): (s: seq<Rect>)
      reads this, nodes
      ensures |s| == |nodes| && forall i | 0 <= i < |s| :: s[i] == nodes[i].rect
    {
      RectsOf(|nodes|)
    }

    /** Forgets every rectangle. */
    method Clear()
      modifies this
      ensures Valid() && nodes == [] && Rects() == []
    {
      head := null;
      nodes := [];
    }

    /** Walks to the last node of the list. */
    method LastNode() returns (current: LinkedRect)
      requires Valid() && head != null
      ensures nodes != [] && current == nodes[|nodes| - 1]
    {
      current := head;
      var next := head.next;
      ghost var i := 0;
      assert Linked(0);
      while next != null
        invariant 0 <= i < |nodes| && current == nodes[i] && next == current.next && Linked(i)
        decreases |nodes| - i
      {
        current := next;
        next := next.next;
        i := i + 1;
        assert Linked(i);
      }
    }

    lemma LastRect()
      requires Valid() && head != null
      ensures nodes != [] && |Rects()| == |nodes| && Rects()[|nodes| - 1] == nodes[|nodes| - 1].rect
    {
    }

    method StartWith(added: LinkedRect)
      requires Valid() && head == null && added.next == null
      modifies this
      ensures Valid() && nodes == [added] && old(Rects()) == [] && Rects() == [added.rect]
    {
      head := added;
      nodes := [added];
      assert Linked(0);
    }

    /** Grows the last rectangle so that it also covers `rect`. */
    method MergeLast(current: LinkedRect, rect: Rect)
      requires Valid() && nodes != [] && current == nodes[|nodes| - 1]
      modifies current`rect
      ensures Valid() && nodes == old(nodes)
      ensures Rects() == old(Rects())[..|nodes| - 1] + [Around(old(current.rect), rect)]
    {
      var last := current.rect;
      var topLeft := Point(Min(last.topLeft.x, rect.topLeft.x), Min(last.topLeft.y, rect.topLeft.y));
      var size := Size(Max(last.topLeft.x + last.size.width, rect.topLeft.x + rect.size.width) - topLeft.x,
                       Max(last.topLeft.y + last.size.height, rect.topLeft.y + rect.size.height) - topLeft.y);
      current.rect := Rect(topLeft, size);
      assert forall i | 0 <= i < |nodes| :: old(Linked(i)) ==> Linked(i);
    }

    /** Links a new node behind the last one. */
    method Append(current: LinkedRect, added: LinkedRect)
      requires Valid() && nodes != [] && current == nodes[|nodes| - 1] && added !in nodes && added.next == null
      modifies this`nodes, current`next
      ensures Valid() && nodes == old(nodes) + [added]
      ensures Rects() == old(Rects()) + [added.rect]
    {
      current.next := added;
      nodes := nodes + [added];
      forall i | 0 <= i < |nodes|
        ensures Linked(i)
      {
        assert i < |nodes| - 2 ==> old(Linked(i));
      }
    }

    /** Adds a rectangle, clipping the caller's own copy to the window. */
    method Invalidate(cell: RectCell)
      requires Valid()
      modifies this, nodes, cell
      ensures Valid() && forall k | 0 <= k < |nodes| :: nodes[k] in old(nodes) || fresh(nodes[k])
      ensures cell.rect == Clipped(old(cell.rect), window)
      ensures Rects() == Invalidated(old(Rects()), old(cell.rect), window)
    {
      cell.Normalize(window);
      Add(cell.rect);
    }

    method Add(rect: Rect)
      requires Valid()
      modifies this, nodes
      ensures Valid() && forall k | 0 <= k < |nodes| :: nodes[k] in old(nodes) || fresh(nodes[k])
      ensures Rects() == WithRect(old(Rects()), rect)
    {
      hide Around, Merges, Rects;
      var added := new LinkedRect(rect);
      if head == null {
        StartWith(added);
      } else {
        var current := LastNode();
        var last := current.rect;
        LastRect();
        if Merges(last, rect) {
          MergeLast(current, rect);
        } else {
          Append(current, added);
        }
      }
    }
  }
}
