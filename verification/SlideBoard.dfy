/** The four scans of a 2048 board of any width and height, as one indexed family of lines. */
module SlideBoard {
  import opened RowMajor
  import opened SlideLine

  ghost predicate IsBoard(b: seq<int>, w: pos, h: pos) {
    |b| == Area(w, h)
  }

  /** The sequence f(0), f(1), ..., f(n - 1). */
  function Table(n: nat, f: nat -> int): (s: seq<int>)
    ensures |s| == n
  {
    if n == 0 then [] else Table(n - 1, f) + [f(n - 1)]
  }

  lemma {:induction false} TableAt(n: nat, f: nat -> int, i: nat)
    requires i < n
    ensures Table(n, f)[i] == f(i)
  {
    if i < n - 1 {
      TableAt(n - 1, f, i);
    }
  }

  // ----- the four scans -----

  type Code = c: nat | c < 4

  const UP: Code := 0
  const DOWN: Code := 1
  const RIGHT: Code := 2
  const LEFT: Code := 3

  /** The scanning parameters of one direction. */
  datatype Direction = Direction(start: int, end: int, incr: int, tEnd: int, tMul: int, sMul: int)

  function DirectionOf(w: pos, h: pos, code: Code): Direction {
    if code == UP then Direction(0, h, 1, w, 1, w)
    else if code == DOWN then Direction(h - 1, -1, -1, w, 1, w)
    else if code == RIGHT then Direction(w - 1, -1, -1, h, w, 1)
    else Direction(0, w, 1, h, w, 1)
  }

  /** A direction on a board: columns or rows, scanned forwards or backwards. */
  datatype Scan = Scan(w: pos, h: pos, code: Code) {

    function Count(): pos {
      if code < 2 then w else h
    }

    function Length(): pos {
      if code < 2 then h else w
    }

    ghost predicate Fits(b: seq<int>) {
      IsBoard(b, w, h)
    }

    /** The scan coordinate after `k` steps. */
    function Position(k: int): int {
      if code == DOWN then h - 1 - k else if code == RIGHT then w - 1 - k else k
    }

    /** The board index that step `k` of line `t` visits. */
    function Cell(t: nat, k: nat): nat
      requires t < Count() && k < Length()
    {
      if code < 2 then Index(t, Position(k), w) else Index(Position(k), t, w)
    }

    /** The line of a board index, and its step on that line. */
    function LineOf(i: nat): nat {
      if code < 2 then XOf(i, w) else YOf(i, w)
    }

    function StepOf(i: nat): int {
      if code < 2 then Position(YOf(i, w)) else Position(XOf(i, w))
    }

    /** A scan runs from `start` to `end` by `incr`, once over the length of a line. */
    lemma Positions(k: nat)
      requires k <= Length()
      ensures var dd := DirectionOf(w, h, code);
              && dd.tEnd == Count()
              && dd.start == Position(0)
              && Position(k + 1) == Position(k) + dd.incr
              && (Position(k) == dd.end <==> k == Length())
    {
    }

    /** The scanning parameters give the index of a cell. */
    lemma CellIsScanned(t: nat, k: nat)
      requires t < Count() && k < Length()
      ensures var dd := DirectionOf(w, h, code);
              Cell(t, k) == t * dd.tMul + Position(k) * dd.sMul
    {
      RowsIsProduct(Position(k), w);
      RowsIsProduct(t, w);
    }

    /** Distinct scan positions visit distinct board cells, and stay on the board. */
    lemma CellInverse(t: nat, k: nat)
      requires t < Count() && k < Length()
      ensures Cell(t, k) < Area(w, h)
      ensures LineOf(Cell(t, k)) == t && StepOf(Cell(t, k)) == k
    {
      var p := Position(k);
      if code < 2 {
        IndexInverse(t, p, w, h);
      } else {
        IndexInverse(p, t, w, h);
      }
    }

    /** Every board cell is visited. */
    lemma IndexIsCell(i: nat)
      requires i < Area(w, h)
      ensures LineOf(i) < Count() && 0 <= StepOf(i) < Length()
      ensures Cell(LineOf(i), StepOf(i)) == i
    {
      CoordinatesInverse(i, w, h);
    }

    function LineCells(b: seq<int>, t: nat): nat -> int {
      (k: nat) => if t < Count() && k < Length() && Cell(t, k) < |b| then b[Cell(t, k)] else EMPTY
    }

    /** The cells of line `t` in the order the scan visits them. */
    function Line(b: seq<int>, t: nat): (line: seq<int>)
      ensures |line| == Length()
    {
      Table(Length(), LineCells(b, t))
    }

    lemma LineAt(b: seq<int>, t: nat, k: nat)
      requires Fits(b) && t < Count() && k < Length()
      ensures Cell(t, k) < |b| && Line(b, t)[k] == b[Cell(t, k)]
    {
      CellInverse(t, k);
      TableAt(Length(), LineCells(b, t), k);
    }

    lemma CellOnLine(b: seq<int>, i: nat)
      requires Fits(b) && i < |b|
      ensures LineOf(i) < Count() && 0 <= StepOf(i) < Length()
      ensures Line(b, LineOf(i))[StepOf(i)] == b[i]
    {
      IndexIsCell(i);
      LineAt(b, LineOf(i), StepOf(i));
    }

    function SlidCells(b: seq<int>): nat -> int {
      (i: nat) => if 0 <= StepOf(i) < Length() then Slide(Line(b, LineOf(i)))[StepOf(i)] else EMPTY
    }

    /** The board after every line slid: cell by cell, the slide of the line it lies on. */
    function Slid(b: seq<int>): (r: seq<int>)
      ensures Fits(r)
    {
      Table(Area(w, h), SlidCells(b))
    }

    lemma SlidAt(b: seq<int>, i: nat)
      requires Fits(b) && i < |b|
      ensures 0 <= StepOf(i) < Length() && Slid(b)[i] == Slide(Line(b, LineOf(i)))[StepOf(i)]
    {
      IndexIsCell(i);
      TableAt(Area(w, h), SlidCells(b), i);
    }

    lemma LinesOfSlid(b: seq<int>, t: nat)
      requires Fits(b) && t < Count()
      ensures Line(Slid(b), t) == Slide(Line(b, t))
    {
      var x, y := Line(Slid(b), t), Slide(Line(b, t));
      forall k | 0 <= k < Length()
        ensures x[k] == y[k]
      {
        CellInverse(t, k);
        LineAt(Slid(b), t, k);
        SlidAt(b, Cell(t, k));
      }
    }

    /** Boards with the same lines are the same board. */
    lemma BoardFromLines(a: seq<int>, b: seq<int>)
      requires Fits(a) && Fits(b)
      requires forall t | 0 <= t < Count() :: Line(a, t) == Line(b, t)
      ensures a == b
    {
      forall i | 0 <= i < |a|
        ensures a[i] == b[i]
      {
        CellOnLine(a, i);
        CellOnLine(b, i);
      }
    }

    /** Line `t` changes when it slides. */
    ghost predicate LineMoves(b: seq<int>, t: nat) {
      Slide(Line(b, t)) != Line(b, t)
    }

    /** None of the first `n` lines changes. */
    ghost predicate StillUpTo(b: seq<int>, n: nat) {
      n == 0 || (StillUpTo(b, n - 1) && !LineMoves(b, n - 1))
    }

    lemma {:induction false} StillLine(b: seq<int>, n: nat, t: nat)
      requires StillUpTo(b, n) && t < n
      ensures Slide(Line(b, t)) == Line(b, t)
    {
      if t < n - 1 {
        StillLine(b, n - 1, t);
      }
    }

    lemma {:induction false} StillFromLines(b: seq<int>, n: nat)
      requires forall t | 0 <= t < n :: !LineMoves(b, t)
      ensures StillUpTo(b, n)
    {
      if n > 0 {
        StillFromLines(b, n - 1);
      }
    }

    /** A scan changes the board exactly when it changes one of its lines. */
    lemma SlidChanges(b: seq<int>)
      requires Fits(b)
      ensures Slid(b) == b <==> StillUpTo(b, Count())
    {
      if StillUpTo(b, Count()) {
        forall t | 0 <= t < Count()
          ensures Line(Slid(b), t) == Line(b, t)
        {
          StillLine(b, Count(), t);
          LinesOfSlid(b, t);
        }
        BoardFromLines(Slid(b), b);
      } else if Slid(b) == b {
        forall t | 0 <= t < Count()
          ensures !LineMoves(b, t)
        {
          LinesOfSlid(b, t);
        }
        StillFromLines(b, Count());
      }
    }

    // ----- scanning one line at a time -----

    ghost function RewrittenCells(b: seq<int>, t: nat, vals: seq<int>, q: nat): nat -> int {
      (i: nat) => if LineOf(i) == t && 0 <= StepOf(i) < q then At(vals, StepOf(i)) else At(b, i)
    }

    /** The board with the first `q` cells of line `t` overwritten by `vals`, then spaces. */
    ghost function Rewritten(b: seq<int>, t: nat, vals: seq<int>, q: nat): (r: seq<int>)
      ensures Fits(r)
    {
      Table(Area(w, h), RewrittenCells(b, t, vals, q))
    }

    lemma RewrittenNothing(b: seq<int>, t: nat, vals: seq<int>)
      requires Fits(b)
      ensures Rewritten(b, t, vals, 0) == b
    {
      var r := Rewritten(b, t, vals, 0);
      forall i | 0 <= i < |b|
        ensures r[i] == b[i]
      {
        TableAt(Area(w, h), RewrittenCells(b, t, vals, 0), i);
      }
    }

    lemma RewrittenStep(b: seq<int>, t: nat, vals: seq<int>, q: nat)
      requires Fits(b) && t < Count() && q < Length()
      ensures Cell(t, q) < |b|
      ensures Rewritten(b, t, vals, q + 1) == Rewritten(b, t, vals, q)[Cell(t, q) := At(vals, q)]
    {
      CellInverse(t, q);
      var next := Rewritten(b, t, vals, q + 1);
      var r := Rewritten(b, t, vals, q)[Cell(t, q) := At(vals, q)];
      forall i | 0 <= i < |b|
        ensures next[i] == r[i]
      {
        IndexIsCell(i);
        TableAt(Area(w, h), RewrittenCells(b, t, vals, q + 1), i);
        TableAt(Area(w, h), RewrittenCells(b, t, vals, q), i);
      }
    }

    ghost function HalfSlidCells(b: seq<int>, t: nat): nat -> int {
      (i: nat) => if LineOf(i) < t then At(Slid(b), i) else At(b, i)
    }

    /** The board after the first `t` lines slid. */
    ghost function HalfSlid(b: seq<int>, t: nat): (r: seq<int>)
      ensures Fits(r)
    {
      Table(Area(w, h), HalfSlidCells(b, t))
    }

    lemma HalfSlidEnds(b: seq<int>)
      requires Fits(b)
      ensures HalfSlid(b, 0) == b
      ensures HalfSlid(b, Count()) == Slid(b)
    {
      var first, last := HalfSlid(b, 0), HalfSlid(b, Count());
      forall i | 0 <= i < |b|
        ensures first[i] == b[i] && last[i] == Slid(b)[i]
      {
        IndexIsCell(i);
        TableAt(Area(w, h), HalfSlidCells(b, 0), i);
        TableAt(Area(w, h), HalfSlidCells(b, Count()), i);
      }
    }

    /** Lines do not disturb each other: a line not yet slid still holds its first tiles. */
    lemma HalfSlidLine(b: seq<int>, t: nat)
      requires Fits(b) && t < Count()
      ensures Line(HalfSlid(b, t), t) == Line(b, t)
    {
      var x, y := Line(HalfSlid(b, t), t), Line(b, t);
      forall k | 0 <= k < Length()
        ensures x[k] == y[k]
      {
        CellInverse(t, k);
        LineAt(b, t, k);
        LineAt(HalfSlid(b, t), t, k);
        TableAt(Area(w, h), HalfSlidCells(b, t), Cell(t, k));
      }
    }

    /** Rewriting a line with its merged tiles slides it. */
    lemma HalfSlidStep(b: seq<int>, t: nat)
      requires Fits(b) && t < Count()
      ensures Rewritten(HalfSlid(b, t), t, Merge(Pack(Line(b, t))), Length()) == HalfSlid(b, t + 1)
    {
      var vals := Merge(Pack(Line(b, t)));
      var r, next := Rewritten(HalfSlid(b, t), t, vals, Length()), HalfSlid(b, t + 1);
      forall i | 0 <= i < |b|
        ensures r[i] == next[i]
      {
        IndexIsCell(i);
        SlidAt(b, i);
        TableAt(Area(w, h), RewrittenCells(HalfSlid(b, t), t, vals, Length()), i);
        TableAt(Area(w, h), HalfSlidCells(b, t), i);
        TableAt(Area(w, h), HalfSlidCells(b, t + 1), i);
      }
    }

    // ----- the sum of the tiles -----

    ghost function EmptiedCells(b: seq<int>, t: nat, k: nat): nat -> int {
      (i: nat) => if LineOf(i) < t || (LineOf(i) == t && StepOf(i) < k) then EMPTY else At(b, i)
    }

    /** The board with the first `t` lines and `k` cells of the next line emptied. */
    ghost function Emptied(b: seq<int>, t: nat, k: nat): (r: seq<int>)
      ensures Fits(r)
    {
      Table(Area(w, h), EmptiedCells(b, t, k))
    }

    lemma EmptiedStep(b: seq<int>, t: nat, k: nat)
      requires Fits(b) && t < Count() && k < Length()
      ensures Total(Emptied(b, t, k)) == Total(Emptied(b, t, k + 1)) + Weight(Line(b, t)[k])
    {
      CellInverse(t, k);
      LineAt(b, t, k);
      var c := Cell(t, k);
      var before, after := Emptied(b, t, k), Emptied(b, t, k + 1);
      TableAt(Area(w, h), EmptiedCells(b, t, k), c);
      forall i | 0 <= i < |b|
        ensures after[i] == before[c := EMPTY][i]
      {
        IndexIsCell(i);
        TableAt(Area(w, h), EmptiedCells(b, t, k), i);
        TableAt(Area(w, h), EmptiedCells(b, t, k + 1), i);
      }
      assert after == before[c := EMPTY];
      TotalUpdate(before, c, EMPTY);
    }

    lemma {:induction false} TotalOfLine(b: seq<int>, t: nat, k: nat)
      requires Fits(b) && t < Count() && k <= Length()
      ensures Total(Emptied(b, t, 0)) == Total(Emptied(b, t, k)) + Total(Line(b, t)[..k])
    {
      hide Line, Emptied;
      if k > 0 {
        TotalOfLine(b, t, k - 1);
        EmptiedStep(b, t, k - 1);
        assert Line(b, t)[..k][..k - 1] == Line(b, t)[..k - 1];
      }
    }

    lemma EmptiedNextLine(b: seq<int>, t: nat)
      requires Fits(b) && t < Count()
      ensures Emptied(b, t, Length()) == Emptied(b, t + 1, 0)
    {
      var x, y := Emptied(b, t, Length()), Emptied(b, t + 1, 0);
      forall i | 0 <= i < |b|
        ensures x[i] == y[i]
      {
        IndexIsCell(i);
        TableAt(Area(w, h), EmptiedCells(b, t, Length()), i);
        TableAt(Area(w, h), EmptiedCells(b, t + 1, 0), i);
      }
    }

    lemma TotalOfWholeLine(b: seq<int>, t: nat)
      requires Fits(b) && t < Count()
      ensures Total(Emptied(b, t, 0)) == Total(Emptied(b, t + 1, 0)) + Total(Line(b, t))
    {
      TotalOfLine(b, t, Length());
      EmptiedNextLine(b, t);
      var line := Line(b, t);
      assert line[..|line|] == line;
    }

    lemma EmptiedEnds(b: seq<int>)
      requires Fits(b)
      ensures Emptied(b, 0, 0) == b
      ensures Total(Emptied(b, Count(), 0)) == 0
    {
      var first, last := Emptied(b, 0, 0), Emptied(b, Count(), 0);
      forall i | 0 <= i < |b|
        ensures first[i] == b[i] && last[i] == EMPTY
      {
        IndexIsCell(i);
        TableAt(Area(w, h), EmptiedCells(b, 0, 0), i);
        TableAt(Area(w, h), EmptiedCells(b, Count(), 0), i);
      }
      TotalEmpty(last);
    }

    /** The first `t` lines, weighed one by one. */
    ghost function LineTotals(b: seq<int>, t: nat): nat {
      if t == 0 then 0 else LineTotals(b, t - 1) + Total(Line(b, t - 1))
    }

    lemma {:induction false} TotalOfLines(b: seq<int>, t: nat)
      requires Fits(b) && t <= Count()
      ensures Total(b) == Total(Emptied(b, t, 0)) + LineTotals(b, t)
    {
      hide Line, Emptied, Total;
      if t == 0 {
        EmptiedEnds(b);
      } else {
        TotalOfLines(b, t - 1);
        TotalOfWholeLine(b, t - 1);
      }
    }

    /** Whatever the direction, a board weighs as much as its lines together. */
    lemma TotalIsLineTotals(b: seq<int>)
      requires Fits(b)
      ensures Total(b) == LineTotals(b, Count())
    {
      hide Line, Emptied, Total;
      TotalOfLines(b, Count());
      EmptiedEnds(b);
    }

    lemma WellFormedLine(b: seq<int>, t: nat)
      requires Fits(b) && WellFormed(b) && t < Count()
      ensures WellFormed(Line(b, t))
    {
      var line := Line(b, t);
      forall k | 0 <= k < |line|
        ensures line[k] == EMPTY || line[k] >= 1
      {
        LineAt(b, t, k);
      }
    }

    lemma {:induction false} LineTotalsOfSlid(b: seq<int>, t: nat)
      requires Fits(b) && WellFormed(b) && t <= Count()
      ensures LineTotals(Slid(b), t) == LineTotals(b, t)
    {
      hide Slid, Line, Slide, Total;
      if t > 0 {
        LineTotalsOfSlid(b, t - 1);
        LinesOfSlid(b, t - 1);
        WellFormedLine(b, t - 1);
        SlideKeepsTotal(Line(b, t - 1));
      }
    }

    /** A move keeps the sum of the tiles on the board. */
    lemma SlidKeepsTotal(b: seq<int>)
      requires Fits(b) && WellFormed(b)
      ensures Total(Slid(b)) == Total(b)
      ensures WellFormed(Slid(b))
    {
      TotalIsLineTotals(b);
      TotalIsLineTotals(Slid(b));
      LineTotalsOfSlid(b, Count());
      var r := Slid(b);
      forall i | 0 <= i < |r|
        ensures r[i] == EMPTY || r[i] >= 1
      {
        IndexIsCell(i);
        SlidAt(b, i);
        WellFormedLine(b, LineOf(i));
        SlideKeepsTotal(Line(b, LineOf(i)));
      }
    }

    /** A move that changes the board leaves an empty cell for the new tile. */
    lemma EffectiveMoveLeavesRoom(b: seq<int>)
      requires Fits(b) && Slid(b) != b
      ensures EMPTY in Slid(b)
    {
      SlidChanges(b);
      var t := FirstMover(b, Count());
      ChangedLineHasRoom(Line(b, t));
      var k :| 0 <= k < Length() && Slide(Line(b, t))[k] == EMPTY;
      LinesOfSlid(b, t);
      LineAt(Slid(b), t, k);
      assert Slid(b)[Cell(t, k)] == EMPTY;
    }

    lemma {:induction false} FirstMover(b: seq<int>, n: nat) returns (t: nat)
      requires !StillUpTo(b, n)
      ensures t < n && LineMoves(b, t)
    {
      hide LineMoves;
      if LineMoves(b, n - 1) {
        t := n - 1;
      } else {
        t := FirstMover(b, n - 1);
      }
    }
  }

  /** The value at an index, or a space past the end. */
  function At(vals: seq<int>, k: nat): int {
    if k < |vals| then vals[k] else EMPTY
  }

  // ----- one direction under flip and transpose gives the others -----

  function MirrorCells(b: seq<int>, w: pos): nat -> int {
    (i: nat) => At(b, Index(w - 1 - XOf(i, w), YOf(i, w), w))
  }

  /** The board with each row reversed. */
  function Mirror(b: seq<int>, w: pos, h: pos): (r: seq<int>)
    ensures IsBoard(r, w, h)
  {
    Table(Area(w, h), MirrorCells(b, w))
  }

  function TransposeCells(b: seq<int>, w: pos, h: pos): nat -> int {
    (i: nat) => At(b, Index(YOf(i, h), XOf(i, h), w))
  }

  /** The board read column by column: a board of width `h` and height `w`. */
  function Transpose(b: seq<int>, w: pos, h: pos): (r: seq<int>)
    ensures IsBoard(r, h, w)
  {
    Table(Area(h, w), TransposeCells(b, w, h))
  }

  lemma MirrorLine(b: seq<int>, w: pos, h: pos, t: nat)
    requires IsBoard(b, w, h) && t < h
    ensures Scan(w, h, LEFT).Line(Mirror(b, w, h), t) == Scan(w, h, RIGHT).Line(b, t)
  {
    var x, y := Scan(w, h, LEFT).Line(Mirror(b, w, h), t), Scan(w, h, RIGHT).Line(b, t);
    forall k | 0 <= k < w
      ensures x[k] == y[k]
    {
      MirrorAt(b, w, h, LEFT, RIGHT, t, k);
    }
  }

  lemma MirrorAt(b: seq<int>, w: pos, h: pos, left: Code, right: Code, t: nat, k: nat)
    requires IsBoard(b, w, h) && t < h && k < w && left == LEFT && right == RIGHT
    ensures Scan(w, h, left).Line(Mirror(b, w, h), t)[k] == Scan(w, h, right).Line(b, t)[k]
  {
    hide Scan.Line, Scan.LineCells, Table, Area, Rows, XOf, YOf;
    Scan(w, h, left).LineAt(Mirror(b, w, h), t, k);
    Scan(w, h, right).LineAt(b, t, k);
    IndexInverse(k, t, w, h);
    TableAt(Area(w, h), MirrorCells(b, w), Index(k, t, w));
  }

  lemma TransposeLine(b: seq<int>, w: pos, h: pos, t: nat, up: bool)
    requires IsBoard(b, w, h) && t < w
    ensures Scan(h, w, if up then LEFT else RIGHT).Line(Transpose(b, w, h), t)
         == Scan(w, h, if up then UP else DOWN).Line(b, t)
  {
    var s, v := Scan(h, w, if up then LEFT else RIGHT), Scan(w, h, if up then UP else DOWN);
    var x, y := s.Line(Transpose(b, w, h), t), v.Line(b, t);
    forall k | 0 <= k < h
      ensures x[k] == y[k]
    {
      s.LineAt(Transpose(b, w, h), t, k);
      v.LineAt(b, t, k);
      IndexInverse(s.Position(k), t, h, w);
      TableAt(Area(h, w), TransposeCells(b, w, h), Index(s.Position(k), t, h));
    }
  }

  /** Sliding right is sliding left in the mirror. */
  lemma RightIsMirroredLeft(b: seq<int>, w: pos, h: pos)
    requires IsBoard(b, w, h)
    ensures Mirror(Scan(w, h, RIGHT).Slid(b), w, h) == Scan(w, h, LEFT).Slid(Mirror(b, w, h))
  {
    var l, r := Scan(w, h, LEFT), Scan(w, h, RIGHT);
    var x, y := Mirror(r.Slid(b), w, h), l.Slid(Mirror(b, w, h));
    forall t | 0 <= t < l.Count()
      ensures l.Line(x, t) == l.Line(y, t)
    {
      MirrorLine(b, w, h, t);
      MirrorLine(r.Slid(b), w, h, t);
      r.LinesOfSlid(b, t);
      l.LinesOfSlid(Mirror(b, w, h), t);
    }
    l.BoardFromLines(x, y);
  }

  /** Sliding up or down is sliding the transposed board left or right. */
  lemma VerticalIsTransposed(b: seq<int>, w: pos, h: pos, up: bool)
    requires IsBoard(b, w, h)
    ensures Transpose(Scan(w, h, if up then UP else DOWN).Slid(b), w, h)
         == Scan(h, w, if up then LEFT else RIGHT).Slid(Transpose(b, w, h))
  {
    var s, v := Scan(h, w, if up then LEFT else RIGHT), Scan(w, h, if up then UP else DOWN);
    var x, y := Transpose(v.Slid(b), w, h), s.Slid(Transpose(b, w, h));
    forall t | 0 <= t < s.Count()
      ensures s.Line(x, t) == s.Line(y, t)
    {
      TransposeLine(b, w, h, t, up);
      TransposeLine(v.Slid(b), w, h, t, up);
      v.LinesOfSlid(b, t);
      s.LinesOfSlid(Transpose(b, w, h), t);
    }
    s.BoardFromLines(x, y);
  }

  // ----- which way the keys push -----

  lemma OnBoard(x: nat, y: nat, w: pos, h: pos)
    requires x < w && y < h
    ensures 0 <= y * w + x < Area(w, h) && y * w + x == Index(x, y, w)
  {
    RowsIsProduct(y, w);
    IndexInverse(x, y, w, h);
  }

  /** What the board holds in column `x` of row `y`. */
  function Held(b: seq<int>, w: pos, h: pos, x: nat, y: nat): int
    requires IsBoard(b, w, h) && x < w && y < h
  {
    OnBoard(x, y, w, h);
    b[y * w + x]
  }

  /** A column read from its top or from its bottom, and a row read from its right or from its left end. */
  function FromTop(b: seq<int>, w: pos, h: pos, x: nat): seq<int>
    requires IsBoard(b, w, h) && x < w
  {
    seq(h, k requires 0 <= k < h => Held(b, w, h, x, k))
  }

  function FromBottom(b: seq<int>, w: pos, h: pos, x: nat): seq<int>
    requires IsBoard(b, w, h) && x < w
  {
    seq(h, k requires 0 <= k < h => Held(b, w, h, x, h - 1 - k))
  }

  function FromRight(b: seq<int>, w: pos, h: pos, y: nat): seq<int>
    requires IsBoard(b, w, h) && y < h
  {
    seq(w, k requires 0 <= k < w => Held(b, w, h, w - 1 - k, y))
  }

  function FromLeft(b: seq<int>, w: pos, h: pos, y: nat): seq<int>
    requires IsBoard(b, w, h) && y < h
  {
    seq(w, k requires 0 <= k < w => Held(b, w, h, k, y))
  }

  /** Read from the end the key names, each column or row of `r` is the slide of that of `b`, so tiles
      merge from that end; and no tile of `r` has an empty cell between it and that end. */
  ghost predicate PushedUp(b: seq<int>, r: seq<int>, w: pos, h: pos) {
    && IsBoard(b, w, h) && IsBoard(r, w, h)
    && (forall x: nat | x < w :: FromTop(r, w, h, x) == Slide(FromTop(b, w, h, x)))
    && forall x: nat, y: nat, z: nat | x < w && z < y < h && Held(r, w, h, x, y) != EMPTY :: Held(r, w, h, x, z) != EMPTY
  }

  ghost predicate PushedDown(b: seq<int>, r: seq<int>, w: pos, h: pos) {
    && IsBoard(b, w, h) && IsBoard(r, w, h)
    && (forall x: nat | x < w :: FromBottom(r, w, h, x) == Slide(FromBottom(b, w, h, x)))
    && forall x: nat, y: nat, z: nat | x < w && y < z < h && Held(r, w, h, x, y) != EMPTY :: Held(r, w, h, x, z) != EMPTY
  }

  ghost predicate PushedRight(b: seq<int>, r: seq<int>, w: pos, h: pos) {
    && IsBoard(b, w, h) && IsBoard(r, w, h)
    && (forall y: nat | y < h :: FromRight(r, w, h, y) == Slide(FromRight(b, w, h, y)))
    && forall x: nat, y: nat, z: nat | y < h && x < z < w && Held(r, w, h, x, y) != EMPTY :: Held(r, w, h, z, y) != EMPTY
  }

  ghost predicate PushedLeft(b: seq<int>, r: seq<int>, w: pos, h: pos) {
    && IsBoard(b, w, h) && IsBoard(r, w, h)
    && (forall y: nat | y < h :: FromLeft(r, w, h, y) == Slide(FromLeft(b, w, h, y)))
    && forall x: nat, y: nat, z: nat | y < h && z < x < w && Held(r, w, h, x, y) != EMPTY :: Held(r, w, h, z, y) != EMPTY
  }

  /** The keys 0, 1, 2 and 3 push up, down, right and left. */
  ghost predicate Pushed(code: Code, b: seq<int>, r: seq<int>, w: pos, h: pos) {
    && (code == 0 ==> PushedUp(b, r, w, h))
    && (code == 1 ==> PushedDown(b, r, w, h))
    && (code == 2 ==> PushedRight(b, r, w, h))
    && (code == 3 ==> PushedLeft(b, r, w, h))
  }

  /** The lines of the scans, by columns and rows. */
  lemma LinesByPlace(b: seq<int>, w: pos, h: pos)
    requires IsBoard(b, w, h)
    ensures forall x: nat | x < w :: Scan(w, h, 0).Line(b, x) == FromTop(b, w, h, x)
    ensures forall x: nat | x < w :: Scan(w, h, 1).Line(b, x) == FromBottom(b, w, h, x)
    ensures forall y: nat | y < h :: Scan(w, h, 2).Line(b, y) == FromRight(b, w, h, y)
    ensures forall y: nat | y < h :: Scan(w, h, 3).Line(b, y) == FromLeft(b, w, h, y)
  {
    hide Scan.Line, Held;
    forall x: nat, k: nat | x < w && k < h
      ensures Scan(w, h, 0).Line(b, x)[k] == Held(b, w, h, x, k)
      ensures Scan(w, h, 1).Line(b, x)[k] == Held(b, w, h, x, h - 1 - k)
    {
      ScannedAt(b, w, h, 0, x, k);
      ScannedAt(b, w, h, 1, x, k);
    }
    forall y: nat, k: nat | y < h && k < w
      ensures Scan(w, h, 2).Line(b, y)[k] == Held(b, w, h, w - 1 - k, y)
      ensures Scan(w, h, 3).Line(b, y)[k] == Held(b, w, h, k, y)
    {
      ScannedAt(b, w, h, 2, y, k);
      ScannedAt(b, w, h, 3, y, k);
    }
  }

  lemma ScannedAt(b: seq<int>, w: pos, h: pos, code: Code, t: nat, k: nat)
    requires IsBoard(b, w, h) && t < Scan(w, h, code).Count() && k < Scan(w, h, code).Length()
    ensures Scan(w, h, code).Line(b, t)[k] == match code {
              case 0 => Held(b, w, h, t, k)
              case 1 => Held(b, w, h, t, h - 1 - k)
              case 2 => Held(b, w, h, w - 1 - k, t)
              case _ => Held(b, w, h, k, t)
            }
  {
    Scan(w, h, code).LineAt(b, t, k);
    if code < 2 {
      OnBoard(t, Scan(w, h, code).Position(k), w, h);
    } else {
      OnBoard(Scan(w, h, code).Position(k), t, w, h);
    }
  }

  /** A slid line has its tiles first. */
  lemma SlideTilesFirst(line: seq<int>)
    requires WellFormed(line)
    ensures forall i, j | 0 <= i < j < |line| && Slide(line)[j] != EMPTY :: Slide(line)[i] != EMPTY
  {
    PackKeepsTotal(line);
    MergeKeepsTotal(Pack(line));
  }

  /** Each key pushes the tiles the way it names. */
  lemma KeysPush(b: seq<int>, w: pos, h: pos, code: Code)
    requires IsBoard(b, w, h) && WellFormed(b)
    ensures Pushed(code, b, Scan(w, h, code).Slid(b), w, h)
  {
    hide Scan.Line, Scan.Slid, Slide, Held;
    var s, r := Scan(w, h, code), Scan(w, h, code).Slid(b);
    LinesByPlace(b, w, h);
    LinesByPlace(r, w, h);
    forall t: nat | t < s.Count()
      ensures s.Line(r, t) == Slide(s.Line(b, t))
      ensures forall i, j | 0 <= i < j < s.Length() && s.Line(r, t)[j] != EMPTY :: s.Line(r, t)[i] != EMPTY
    {
      s.LinesOfSlid(b, t);
      s.WellFormedLine(b, t);
      SlideTilesFirst(s.Line(b, t));
    }
    forall x: nat, y: nat, z: nat | code == 0 && x < w && z < y < h && Held(r, w, h, x, y) != EMPTY
      ensures Held(r, w, h, x, z) != EMPTY
    {
      assert FromTop(r, w, h, x)[y] != EMPTY;
      assert FromTop(r, w, h, x)[z] != EMPTY;
    }
    forall x: nat, y: nat, z: nat | code == 1 && x < w && y < z < h && Held(r, w, h, x, y) != EMPTY
      ensures Held(r, w, h, x, z) != EMPTY
    {
      assert FromBottom(r, w, h, x)[h - 1 - y] != EMPTY;
      assert FromBottom(r, w, h, x)[h - 1 - z] != EMPTY;
    }
    forall x: nat, y: nat, z: nat | code == 2 && y < h && x < z < w && Held(r, w, h, x, y) != EMPTY
      ensures Held(r, w, h, z, y) != EMPTY
    {
      assert FromRight(r, w, h, y)[w - 1 - x] != EMPTY;
      assert FromRight(r, w, h, y)[w - 1 - z] != EMPTY;
    }
    forall x: nat, y: nat, z: nat | code == 3 && y < h && z < x < w && Held(r, w, h, x, y) != EMPTY
      ensures Held(r, w, h, z, y) != EMPTY
    {
      assert FromLeft(r, w, h, y)[x] != EMPTY;
      assert FromLeft(r, w, h, y)[z] != EMPTY;
    }
  }

  lemma SameHeld(r: seq<int>, q: seq<int>, w: pos, h: pos)
    requires IsBoard(r, w, h) && IsBoard(q, w, h)
    requires forall x: nat, y: nat | x < w && y < h :: Held(r, w, h, x, y) == Held(q, w, h, x, y)
    ensures r == q
  {
    forall i | 0 <= i < |r|
      ensures r[i] == q[i]
    {
      CoordinatesInverse(i, w, h);
      OnBoard(XOf(i, w), YOf(i, w), w, h);
      assert Held(r, w, h, XOf(i, w), YOf(i, w)) == Held(q, w, h, XOf(i, w), YOf(i, w));
    }
  }

  /** And this leaves no choice: the board after a key is the only one pushed that way. */
  lemma PushedOneWay(code: Code, b: seq<int>, r: seq<int>, q: seq<int>, w: pos, h: pos)
    requires Pushed(code, b, r, w, h) && Pushed(code, b, q, w, h)
    ensures r == q
  {
    hide Held, Slide;
    forall x: nat, y: nat | x < w && y < h
      ensures Held(r, w, h, x, y) == Held(q, w, h, x, y)
    {
      if code == 0 {
        assert FromTop(r, w, h, x)[y] == FromTop(q, w, h, x)[y];
      } else if code == 1 {
        assert FromBottom(r, w, h, x)[h - 1 - y] == FromBottom(q, w, h, x)[h - 1 - y];
      } else if code == 2 {
        assert FromRight(r, w, h, y)[w - 1 - x] == FromRight(q, w, h, y)[w - 1 - x];
      } else {
        assert FromLeft(r, w, h, y)[x] == FromLeft(q, w, h, y)[x];
      }
    }
    SameHeld(r, q, w, h);
  }

  lemma SlideThree(v: int)
    requires v >= 1
    ensures Slide([v, v, v]) == [v + 1, v, EMPTY]
  {
    assert [v, v, v][..2] == [v, v] && [v, v][..1] == [v] && [v][..0] == [];
    assert Pack([v]) == [v] && Pack([v, v]) == [v, v] && Pack([v, v, v]) == [v, v, v];
    assert [v, v, v][2..] == [v] && [v][1..] == [];
    assert Merge([v]) == [v] && Merge([v, v, v]) == [v + 1, v];
  }

  lemma ThreeInLine(b: seq<int>)
    requires |b| == 3
    ensures IsBoard(b, 1, 3) && FromTop(b, 1, 3, 0) == b && FromBottom(b, 1, 3, 0) == [b[2], b[1], b[0]]
    ensures IsBoard(b, 3, 1) && FromLeft(b, 3, 1, 0) == b && FromRight(b, 3, 1, 0) == [b[2], b[1], b[0]]
  {
    assert Rows(1, 1) == 1 && Rows(2, 1) == 2 && Rows(3, 1) == 3 && Rows(1, 3) == 3;
    forall k: nat | k < 3
      ensures Held(b, 1, 3, 0, k) == b[k] && Held(b, 3, 1, k, 0) == b[k]
    {
    }
    hide Held;
    assert FromTop(b, 1, 3, 0) == b;
    assert FromLeft(b, 3, 1, 0) == b;
    assert FromBottom(b, 1, 3, 0) == [b[2], b[1], b[0]];
    assert FromRight(b, 3, 1, 0) == [b[2], b[1], b[0]];
  }

  /** Of three equal tiles, the two nearest the end that the key names merge, and they merge there. */
  lemma ThreeEqual(v: int)
    requires v >= 1
    ensures Scan(1, 3, 0).Slid([v, v, v]) == Scan(3, 1, 3).Slid([v, v, v]) == [v + 1, v, EMPTY]
    ensures Scan(1, 3, 1).Slid([v, v, v]) == Scan(3, 1, 2).Slid([v, v, v]) == [EMPTY, v, v + 1]
  {
    hide Scan.Slid, Slide, Held, FromTop, FromBottom, FromRight, FromLeft;
    var b := [v, v, v];
    SlideThree(v);
    ThreeInLine(b);
    var up, down, right, left := Scan(1, 3, 0).Slid(b), Scan(1, 3, 1).Slid(b), Scan(3, 1, 2).Slid(b), Scan(3, 1, 3).Slid(b);
    KeysPush(b, 1, 3, 0);
    KeysPush(b, 1, 3, 1);
    KeysPush(b, 3, 1, 2);
    KeysPush(b, 3, 1, 3);
    assert |b| == |up| == |down| == |right| == |left| == 3;
    ThreeInLine(up);
    ThreeInLine(down);
    ThreeInLine(right);
    ThreeInLine(left);
    var slid := Slide(b);
    assert slid == [v + 1, v, EMPTY];
    assert up == slid && left == slid;
    assert [down[2], down[1], down[0]] == slid && [right[2], right[1], right[0]] == slid;
    assert slid[0] == v + 1 && slid[1] == v && slid[2] == EMPTY;
    assert down == [EMPTY, v, v + 1];
    assert right == [EMPTY, v, v + 1];
  }
}
