/** The sliding puzzle as a permutation of its tiles, and what no run of presses can change. */
module PuzzleBoard {
  import opened RowMajor
  import opened Parity

  /** `order[p]` is the home index of the tile at `p`; the blank counts as the last tile. */
  datatype Board = Board(w: pos, h: pos, order: seq<int>, blank: nat) {

    ghost predicate Valid() {
      && |order| == Area(w, h) && Distinct(order)
      && (forall p | 0 <= p < |order| :: 0 <= order[p] < |order|)
      && blank < |order| && order[blank] == |order| - 1
    }

    /** Steps between the blank and the last cell, its home. */
    function BlankDistance(): int {
      (w - 1 - XOf(blank, w)) + (h - 1 - YOf(blank, w))
    }

    /** The tile at `p` is pressed: it slides if the blank is beside it. */
    function Pressed(p: nat): Board
      requires p < |order| && blank < |order|
    {
      if Beside(p, blank, w) then Board(w, h, Swap(order, p, blank), p) else this
    }
  }

  predicate Beside(p: nat, q: nat, w: pos) {
    var dx, dy := XOf(p, w) - XOf(q, w), YOf(p, w) - YOf(q, w);
    (dx == 0 && (dy == 1 || dy == -1)) || (dy == 0 && (dx == 1 || dx == -1))
  }

  function Distance(a: int, b: int): nat {
    if a < b then b - a else a - b
  }

  /** Two places are beside each other exactly when they are one step apart, across or down. */
  lemma BesideExactly(p: nat, q: nat, w: pos)
    ensures Beside(p, q, w) <==> Distance(p % w, q % w) + Distance(p / w, q / w) == 1
    ensures Beside(p, q, w) <==> Distance(XOf(p, w), XOf(q, w)) + Distance(YOf(p, w), YOf(q, w)) == 1
  {
    CoordinatesAreDivMod(p, w);
    CoordinatesAreDivMod(q, w);
  }

  function Identity(n: nat): (s: seq<int>)
    ensures |s| == n && forall p | 0 <= p < n :: s[p] == p
  {
    if n == 0 then [] else Identity(n - 1) + [n - 1]
  }

  function Home(w: pos, h: pos): Board {
    Board(w, h, Identity(Area(w, h)), if Area(w, h) == 0 then 0 else Area(w, h) - 1)
  }

  lemma AreaPositive(w: pos, h: pos)
    ensures Area(w, h) >= 1
    ensures XOf(Area(w, h) - 1, w) == w - 1 && YOf(Area(w, h) - 1, w) == h - 1
  {
    RowsIncrease(1, h, w);
    IndexInverse(w - 1, h - 1, w, h);
  }

  lemma HomeIsValid(w: pos, h: pos)
    ensures Home(w, h).Valid()
    ensures Home(w, h).BlankDistance() == 0 && Inversions(Home(w, h).order) == 0
  {
    AreaPositive(w, h);
    SortedHasNoInversions(Home(w, h).order);
  }

  lemma PressedIsValid(b: Board, p: nat)
    requires b.Valid() && p < |b.order|
    ensures b.Pressed(p).Valid()
  {
    SwapDistinct(b.order, p, b.blank);
  }

  /** A press either does nothing, or flips both the parity of the permutation and the parity
      of the blank's distance from home. */
  lemma PressKeepsParity(b: Board, p: nat)
    requires b.Valid() && p < |b.order|
    ensures var c := b.Pressed(p);
            (Odd(Inversions(c.order)) == Even(c.BlankDistance()))
            == (Odd(Inversions(b.order)) == Even(b.BlankDistance()))
  {
    if Beside(p, b.blank, b.w) {
      var i, j := if p < b.blank then p else b.blank, if p < b.blank then b.blank else p;
      SwapFlipsParity(b.order, i, j);
      assert Swap(b.order, p, b.blank) == Swap(b.order, i, j);
      EvenFlips(b.BlankDistance(), b.Pressed(p).BlankDistance());
    }
  }

  predicate Even(n: int) {
    n % 2 == 0
  }

  lemma EvenFlips(a: int, b: int)
    requires a - b == 1 || b - a == 1
    ensures Even(a) != Even(b)
  {
  }

  ghost predicate OnBoard(w: pos, h: pos, ps: seq<nat>) {
    forall k | 0 <= k < |ps| :: ps[k] < Area(w, h)
  }

  /** The board after a sequence of presses, from the solved board. */
  function Run(w: pos, h: pos, ps: seq<nat>): (b: Board)
    requires OnBoard(w, h, ps)
    ensures b.w == w && b.h == h && |b.order| == Area(w, h) && b.blank < |b.order|
  {
    if ps == [] then
      AreaPositive(w, h);
      Home(w, h)
    else Run(w, h, ps[..|ps| - 1]).Pressed(ps[|ps| - 1])
  }

  /** In every state of every run, the permutation of the tiles is odd exactly when the blank
      stands an odd number of steps from its home. */
  lemma {:induction false} RunParity(w: pos, h: pos, ps: seq<nat>)
    requires OnBoard(w, h, ps)
    ensures Run(w, h, ps).Valid()
    ensures Odd(Inversions(Run(w, h, ps).order)) <==> !Even(Run(w, h, ps).BlankDistance())
  {
    if ps == [] {
      HomeIsValid(w, h);
    } else {
      RunParity(w, h, ps[..|ps| - 1]);
      var b := Run(w, h, ps[..|ps| - 1]);
      PressedIsValid(b, ps[|ps| - 1]);
      PressKeepsParity(b, ps[|ps| - 1]);
    }
  }

  lemma ExchangeKeepsLast(n: nat, i: nat, j: nat)
    requires i < j < n - 1
    ensures forall p | 0 <= p < n && Swap(Identity(n), i, j)[p] == n - 1 :: p == n - 1
    ensures Odd(Inversions(Swap(Identity(n), i, j)))
  {
    SwapFlipsParity(Identity(n), i, j);
    SortedHasNoInversions(Identity(n));
  }

  /** No run exchanges two tiles and leaves everything else at home. */
  lemma NoExchange(w: pos, h: pos, ps: seq<nat>, i: nat, j: nat)
    requires OnBoard(w, h, ps) && i < j < Area(w, h) - 1
    ensures Run(w, h, ps).order != Swap(Identity(Area(w, h)), i, j)
  {
    hide Run, Inversions, Identity, Swap;
    RunParity(w, h, ps);
    AreaPositive(w, h);
    ExchangeKeepsLast(Area(w, h), i, j);
  }

  /** A press is undone by pressing the same tile again, at the place it went to. */
  lemma PressUndone(b: Board, p: nat)
    requires b.Valid() && p < |b.order| && Beside(p, b.blank, b.w)
    ensures b.Pressed(p).Pressed(b.blank) == b
  {
    assert Swap(Swap(b.order, p, b.blank), b.blank, p) == b.order;
  }
}
