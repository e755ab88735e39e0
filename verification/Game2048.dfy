/** Whole games of 2048 as pure runs: spawning, losing, the bound on the board, the end of the game. */
module Game2048 {
  import opened Powers
  import opened RowMajor
  import opened SlideLine
  import opened SlideBoard

  // ----- spawning -----

  function Empties(b: seq<int>): (n: nat)
    ensures n <= |b|
  {
    if b == [] then 0 else Empties(b[..|b| - 1]) + if b[|b| - 1] == EMPTY then 1 else 0
  }

  lemma {:induction false} SomeEmpty(b: seq<int>)
    ensures Empties(b) > 0 <==> EMPTY in b
  {
    if b != [] {
      SomeEmpty(b[..|b| - 1]);
      assert b == b[..|b| - 1] + [b[|b| - 1]];
    }
  }

  /** Index of the empty cell that has `n` empty cells before it. */
  function EmptyIndex(b: seq<int>, n: nat): (i: nat)
    requires n < Empties(b)
    ensures i < |b| && b[i] == EMPTY && Empties(b[..i]) == n
  {
    var last := |b| - 1;
    if b[last] == EMPTY && Empties(b[..last]) == n then last
    else
      var i := EmptyIndex(b[..last], n);
      assert b[..last][..i] == b[..i];
      i
  }

  /** The rank a random draw in [0, 1] gives among the empty cells. A draw of exactly 1 gives
      a rank no empty cell has. */
  function Rank(empties: nat, draw: real): (n: nat)
    requires 0.0 <= draw <= 1.0
    ensures n <= empties
    ensures draw < 1.0 && empties > 0 ==> n < empties
    ensures draw == 1.0 ==> n == empties
  {
    var e := empties as real;
    assert 0.0 <= e * draw <= e;
    assert draw < 1.0 && empties > 0 ==> e * draw < e;
    (e * draw).Floor
  }

  datatype Draws = Draws(place: real, kind: real)

  ghost predicate ValidDraws(d: Draws) {
    0.0 <= d.place <= 1.0 && 0.0 <= d.kind <= 1.0
  }

  function NewExponent(d: Draws): int {
    if d.kind > 0.8 then 2 else 1
  }

  function Spawned(b: seq<int>, d: Draws): (r: seq<int>)
    requires ValidDraws(d)
    ensures |r| == |b|
  {
    var n := Rank(Empties(b), d.place);
    if n < Empties(b) then b[EmptyIndex(b, n) := NewExponent(d)] else b
  }

  /** A new tile takes an empty cell and weighs 2 or 4; a draw of exactly 1 places nothing. */
  lemma SpawnedTotal(b: seq<int>, d: Draws)
    requires WellFormed(b) && ValidDraws(d)
    ensures WellFormed(Spawned(b, d))
    ensures if d.place < 1.0 && EMPTY in b
            then Total(Spawned(b, d)) == Total(b) + (if d.kind > 0.8 then 4 else 2)
                 && Empties(Spawned(b, d)) == Empties(b) - 1
            else Spawned(b, d) == b
    ensures Pow2(NewExponent(d)) in {2, 4}
  {
    var n := Rank(Empties(b), d.place);
    assert Pow2(1) == 2 && Pow2(2) == 4;
    SomeEmpty(b);
    if n < Empties(b) {
      TotalUpdate(b, EmptyIndex(b, n), NewExponent(d));
      EmptiesUpdate(b, EmptyIndex(b, n), NewExponent(d));
    }
  }

  ghost function EmptyCells(b: seq<int>): set<nat> {
    set j: nat | j < |b| && b[j] == EMPTY
  }

  lemma {:induction false} EmptiesCount(b: seq<int>)
    ensures Empties(b) == |EmptyCells(b)|
  {
    if b != [] {
      var last := |b| - 1;
      EmptiesCount(b[..last]);
      assert EmptyCells(b) == EmptyCells(b[..last]) + if b[last] == EMPTY then {last} else {};
    }
  }

  /** The new tile takes the empty cell with as many empty cells before it as the draw, a share of all
      empty cells, has whole ones: exponent 2 for a draw of the kind above 0.8, and 1 otherwise. */
  lemma SpawnsAt(b: seq<int>, d: Draws) returns (i: nat)
    requires ValidDraws(d) && d.place < 1.0 && EMPTY in b
    ensures i < |b| && b[i] == EMPTY && Spawned(b, d) == b[i := if d.kind > 0.8 then 2 else 1]
    ensures var before, all := |EmptyCells(b[..i])| as real, |EmptyCells(b)| as real;
            before <= all * d.place < before + 1.0
  {
    hide Rank, EmptyCells, Empties;
    SomeEmpty(b);
    var n := Rank(Empties(b), d.place);
    RankIsFloor(Empties(b), d.place);
    i := EmptyIndex(b, n);
    EmptiesCount(b);
    EmptiesCount(b[..i]);
  }

  lemma RankIsFloor(empties: nat, draw: real)
    requires 0.0 <= draw <= 1.0
    ensures Rank(empties, draw) as real <= empties as real * draw < Rank(empties, draw) as real + 1.0
  {
  }

  lemma {:induction false} EmptiesUpdate(b: seq<int>, i: nat, v: int)
    requires i < |b| && b[i] == EMPTY && v != EMPTY
    ensures Empties(b[i := v]) == Empties(b) - 1
  {
    var n := |b| - 1;
    if i == n {
      assert b[i := v][..n] == b[..n];
    } else {
      assert b[i := v][..n] == b[..n][i := v];
      EmptiesUpdate(b[..n], i, v);
    }
  }

  // ----- losing -----

  /** What one dry run reports. */
  ghost predicate CanMove(b: seq<int>, w: pos, h: pos, code: Code) {
    Scan(w, h, code).Slid(b) != b
  }

  /** None of the first `n` keys moves. */
  ghost predicate LostUpTo(b: seq<int>, w: pos, h: pos, n: nat)
    requires n <= 4
  {
    n == 0 || (LostUpTo(b, w, h, n - 1) && !CanMove(b, w, h, n - 1))
  }

  ghost predicate Lost(b: seq<int>, w: pos, h: pos) {
    LostUpTo(b, w, h, 4)
  }

  lemma {:induction false} LostMeansStill(b: seq<int>, w: pos, h: pos, n: nat, code: Code)
    requires n <= 4 && LostUpTo(b, w, h, n) && code < n
    ensures !CanMove(b, w, h, code)
  {
    hide CanMove;
    if code < n - 1 {
      LostMeansStill(b, w, h, n - 1, code);
    }
  }

  lemma {:induction false} StillMeansLost(b: seq<int>, w: pos, h: pos, n: nat)
    requires n <= 4 && forall code: Code | code < n :: !CanMove(b, w, h, code)
    ensures LostUpTo(b, w, h, n)
  {
    hide CanMove;
    if n > 0 {
      StillMeansLost(b, w, h, n - 1);
    }
  }

  ghost predicate NoEqualNeighbours(b: seq<int>, w: pos) {
    forall i, j | 0 <= i < j < |b| && Adjacent(i, j, w) :: b[i] != b[j]
  }

  /** Two board cells share a side, `j` right of or below `i`. */
  predicate Adjacent(i: nat, j: nat, w: pos) {
    (j == i + 1 && YOf(i, w) == YOf(j, w)) || j == i + w
  }

  ghost predicate AllEmpty(b: seq<int>) {
    forall i | 0 <= i < |b| :: b[i] == EMPTY
  }

  lemma NoGapBefore(line: seq<int>, j: nat, k: nat)
    requires Slide(line) == line && j < k < |line| && line[k] != EMPTY
    ensures line[j] != EMPTY
  {
    SlideChanges(line);
    assert !HasGap(line);
  }

  lemma StillScanHasNoGap(z: Scan, b: seq<int>, i: nat, j: nat)
    requires z.Fits(b) && z.Slid(b) == b
    requires i < |b| && j < |b| && z.LineOf(i) == z.LineOf(j) && z.StepOf(j) < z.StepOf(i)
    requires b[i] != EMPTY
    ensures b[j] != EMPTY
  {
    var t := z.LineOf(i);
    z.CellOnLine(b, i);
    z.CellOnLine(b, j);
    z.LinesOfSlid(b, t);
    NoGapBefore(z.Line(b, t), z.StepOf(j), z.StepOf(i));
  }

  /** Two opposite scans that do not move a line leave it full or empty. */
  lemma StillBothWays(b: seq<int>, w: pos, h: pos, up: bool, i: nat, j: nat)
    requires IsBoard(b, w, h) && Lost(b, w, h)
    requires i < |b| && j < |b| && if up then XOf(i, w) == XOf(j, w) else YOf(i, w) == YOf(j, w)
    requires b[i] != EMPTY
    ensures b[j] != EMPTY
  {
    var code, back := if up then UP else LEFT, if up then DOWN else RIGHT;
    LostMeansStill(b, w, h, 4, code);
    LostMeansStill(b, w, h, 4, back);
    CoordinatesInverse(i, w, h);
    CoordinatesInverse(j, w, h);
    if Scan(w, h, code).StepOf(j) < Scan(w, h, code).StepOf(i) {
      StillScanHasNoGap(Scan(w, h, code), b, i, j);
    } else if Scan(w, h, code).StepOf(j) > Scan(w, h, code).StepOf(i) {
      StillScanHasNoGap(Scan(w, h, back), b, i, j);
    }
  }

  lemma StillBoardIsFull(b: seq<int>, w: pos, h: pos, i: nat)
    requires IsBoard(b, w, h) && Lost(b, w, h) && i < |b| && b[i] != EMPTY
    ensures Full(b)
  {
    forall j | 0 <= j < |b|
      ensures b[j] != EMPTY
    {
      // along the row of i to the column of j, then along that column
      var corner := Index(XOf(j, w), YOf(i, w), w);
      CoordinatesInverse(i, w, h);
      IndexInverse(XOf(j, w), YOf(i, w), w, h);
      StillBothWays(b, w, h, false, i, corner);
      StillBothWays(b, w, h, true, corner, j);
    }
  }

  /** Neighbours stand one step apart on a common line. */
  lemma AdjacentSteps(w: pos, h: pos, i: nat, j: nat) returns (z: Scan)
    requires i < j < Area(w, h) && Adjacent(i, j, w)
    ensures z.w == w && z.h == h
    ensures z.LineOf(i) == z.LineOf(j) && z.StepOf(j) == z.StepOf(i) + 1
  {
    CoordinatesInverse(i, w, h);
    CoordinatesInverse(j, w, h);
    z := Scan(w, h, if j == i + 1 && YOf(i, w) == YOf(j, w) then LEFT else UP);
  }

  lemma StillLineHasNoPair(line: seq<int>, k: nat)
    requires Slide(line) == line && Full(line) && k + 1 < |line|
    ensures line[k] != line[k + 1]
  {
    SlideChanges(line);
    PackOfFull(line);
    assert !HasPair(line);
  }

  lemma LinesOfFullBoard(z: Scan, b: seq<int>, t: nat)
    requires z.Fits(b) && Full(b) && t < z.Count()
    ensures Full(z.Line(b, t))
  {
    var line := z.Line(b, t);
    forall k | 0 <= k < |line|
      ensures line[k] != EMPTY
    {
      z.LineAt(b, t, k);
    }
  }

  lemma StillBoardHasNoPair(b: seq<int>, w: pos, h: pos, i: nat, j: nat)
    requires IsBoard(b, w, h) && Lost(b, w, h) && Full(b)
    requires i < j < |b| && Adjacent(i, j, w)
    ensures b[i] != b[j]
  {
    var z := AdjacentSteps(w, h, i, j);
    LostMeansStill(b, w, h, 4, z.code);
    var t := z.LineOf(i);
    z.CellOnLine(b, i);
    z.CellOnLine(b, j);
    z.LinesOfSlid(b, t);
    LinesOfFullBoard(z, b, t);
    StillLineHasNoPair(z.Line(b, t), z.StepOf(i));
  }

  lemma StepsAreAdjacent(z: Scan, t: nat, k: nat)
    requires t < z.Count() && k + 1 < z.Length()
    ensures var i, j := z.Cell(t, k), z.Cell(t, k + 1);
            (i < j && Adjacent(i, j, z.w)) || (j < i && Adjacent(j, i, z.w))
  {
    z.CellInverse(t, k);
    z.CellInverse(t, k + 1);
  }

  lemma FullLineIsStill(z: Scan, b: seq<int>, t: nat)
    requires z.Fits(b) && t < z.Count()
    requires Full(b) && NoEqualNeighbours(b, z.w)
    ensures Slide(z.Line(b, t)) == z.Line(b, t)
  {
    var line := z.Line(b, t);
    LinesOfFullBoard(z, b, t);
    PackOfFull(line);
    forall k | 0 <= k < |line| - 1
      ensures line[k] != line[k + 1]
    {
      StepsAreAdjacent(z, t, k);
      z.LineAt(b, t, k);
      z.LineAt(b, t, k + 1);
    }
    SlideChanges(line);
  }

  lemma FullBoardIsStill(z: Scan, b: seq<int>)
    requires z.Fits(b) && Full(b) && NoEqualNeighbours(b, z.w)
    ensures z.Slid(b) == b
  {
    forall t | 0 <= t < z.Count()
      ensures !z.LineMoves(b, t)
    {
      FullLineIsStill(z, b, t);
    }
    z.StillFromLines(b, z.Count());
    z.SlidChanges(b);
  }

  lemma EmptyBoardIsStill(z: Scan, b: seq<int>)
    requires z.Fits(b) && AllEmpty(b)
    ensures z.Slid(b) == b
  {
    forall t | 0 <= t < z.Count()
      ensures !z.LineMoves(b, t)
    {
      var line := z.Line(b, t);
      forall k | 0 <= k < |line|
        ensures line[k] == EMPTY
      {
        z.LineAt(b, t, k);
      }
      PackLength(line, 0);
      SlideChanges(line);
    }
    z.StillFromLines(b, z.Count());
    z.SlidChanges(b);
  }

  /** The loss test: no dry run moves exactly on a full board without equal neighbours, or on
      a board without any tile. */
  lemma LostExactly(b: seq<int>, w: pos, h: pos)
    requires IsBoard(b, w, h)
    ensures Lost(b, w, h) <==> (Full(b) && NoEqualNeighbours(b, w)) || AllEmpty(b)
  {
    if AllEmpty(b) || (Full(b) && NoEqualNeighbours(b, w)) {
      forall code: Code
        ensures !CanMove(b, w, h, code)
      {
        if AllEmpty(b) {
          EmptyBoardIsStill(Scan(w, h, code), b);
        } else {
          FullBoardIsStill(Scan(w, h, code), b);
        }
      }
      StillMeansLost(b, w, h, 4);
    } else if Lost(b, w, h) {
      var i :| 0 <= i < |b| && b[i] != EMPTY;
      StillBoardIsFull(b, w, h, i);
      forall i, j | 0 <= i < j < |b| && Adjacent(i, j, w)
        ensures b[i] != b[j]
      {
        StillBoardHasNoPair(b, w, h, i, j);
      }
    }
  }

  // ----- whole games -----

  datatype Press = Press(code: Code, draws: Draws)

  ghost predicate ValidPresses(ps: seq<Press>) {
    forall i | 0 <= i < |ps| :: ValidDraws(ps[i].draws)
  }

  /** One key press: the move, and a new tile if the move changed something. */
  function Played(b: seq<int>, w: pos, h: pos, p: Press): (r: seq<int>)
    requires IsBoard(b, w, h) && ValidDraws(p.draws)
    ensures IsBoard(r, w, h)
  {
    var m := Scan(w, h, p.code).Slid(b);
    if m != b then Spawned(m, p.draws) else b
  }

  function NewBoard(w: pos, h: pos, d: Draws): (b: seq<int>)
    requires ValidDraws(d)
    ensures IsBoard(b, w, h)
  {
    Spawned(seq(Area(w, h), i => EMPTY), d)
  }

  /** A new board has one tile, unless the first draw was exactly 1. */
  lemma FirstTile(w: pos, h: pos, d: Draws) returns (i: nat)
    requires ValidDraws(d)
    ensures var b := NewBoard(w, h, d);
            if d.place < 1.0
            then i < |b| && b[i] == (if d.kind > 0.8 then 2 else 1) && forall j | 0 <= j < |b| && j != i :: b[j] == EMPTY
            else forall j | 0 <= j < |b| :: b[j] == EMPTY
  {
    var blank := seq(Area(w, h), i => EMPTY);
    RowsIncrease(1, h, w);
    assert blank[0] == EMPTY;
    if d.place < 1.0 {
      i := SpawnsAt(blank, d);
    } else {
      i := 0;
    }
  }

  /** The board after the first tile and a sequence of key presses. */
  function Run(w: pos, h: pos, d: Draws, ps: seq<Press>): (b: seq<int>)
    requires ValidDraws(d) && ValidPresses(ps)
    ensures IsBoard(b, w, h)
  {
    if ps == [] then NewBoard(w, h, d)
    else Played(Run(w, h, d, ps[..|ps| - 1]), w, h, ps[|ps| - 1])
  }

  /** How many presses of a run changed the board. */
  function Effective(w: pos, h: pos, d: Draws, ps: seq<Press>): nat
    requires ValidDraws(d) && ValidPresses(ps)
  {
    if ps == [] then 0
    else
      var b := Run(w, h, d, ps[..|ps| - 1]);
      Effective(w, h, d, ps[..|ps| - 1]) + if Scan(w, h, ps[|ps| - 1].code).Slid(b) != b then 1 else 0
  }

  /** How many of those presses drew exactly 1, and so placed no tile. */
  function Missed(w: pos, h: pos, d: Draws, ps: seq<Press>): nat
    requires ValidDraws(d) && ValidPresses(ps)
  {
    if ps == [] then 0
    else
      var b := Run(w, h, d, ps[..|ps| - 1]);
      var last := ps[|ps| - 1];
      Missed(w, h, d, ps[..|ps| - 1])
      + if Scan(w, h, last.code).Slid(b) != b && last.draws.place == 1.0 then 1 else 0
  }

  lemma {:induction false} DigitsPerTile(b: seq<int>)
    requires WellFormed(b)
    ensures PopCount(Total(b)) <= |b| - Empties(b)
    ensures Total(b) % 2 == 0
  {
    hide PopCount, Pow2;
    if b == [] {
      NoDigits();
    } else {
      var init, last := b[..|b| - 1], b[|b| - 1];
      DigitsPerTile(init);
      if last != EMPTY {
        PopCountAddPow2(Total(init), last);
        TilesAreEven(last);
      }
    }
  }

  lemma NoDigits()
    ensures PopCount(0) == 0
  {
  }

  lemma TilesAreEven(v: int)
    requires v >= 1
    ensures Pow2(v) % 2 == 0
  {
  }

  /** The two even sums just below the bound need as many tiles as the board has cells. */
  lemma RoomBelow(total: nat, n: nat)
    requires n >= 1 && total % 2 == 0 && total <= Pow2(n + 2) - 4
    requires PopCount(total) < n
    ensures total <= Pow2(n + 2) - 8
  {
    var p, half := Pow2(n), total / 2;
    PopCountNearTop(n);
    assert total != 4 * p - 4 && total != 4 * p - 6;
    assert total == 2 * half;
    assert half != 2 * p - 2 && half != 2 * p - 3;
  }

  /** A board with room for a tile stays below the bound after it is placed. */
  lemma SpawnStaysBelow(b: seq<int>, d: Draws)
    requires WellFormed(b) && ValidDraws(d) && |b| >= 1
    requires Total(b) <= Pow2(|b| + 2) - 4
    ensures Total(Spawned(b, d)) <= Pow2(|b| + 2) - 4
  {
    SpawnedTotal(b, d);
    if EMPTY in b {
      SomeEmpty(b);
      DigitsPerTile(b);
      RoomBelow(Total(b), |b|);
    }
  }

  /** In every state of every game, the tiles sum to at most 2^(n+2) - 4 on n cells. */
  lemma {:induction false} RunBound(w: pos, h: pos, d: Draws, ps: seq<Press>)
    requires ValidDraws(d) && ValidPresses(ps)
    ensures WellFormed(Run(w, h, d, ps))
    ensures Total(Run(w, h, d, ps)) <= Pow2(Area(w, h) + 2) - 4
  {
    BoardNotEmpty(w, h);
    if ps == [] {
      var b: seq<int> := seq(Area(w, h), i => EMPTY);
      TotalEmpty(b);
      PopCountNearTop(Area(w, h));
      SpawnedTotal(b, d);
      SpawnStaysBelow(b, d);
    } else {
      RunBound(w, h, d, ps[..|ps| - 1]);
      var b := Run(w, h, d, ps[..|ps| - 1]);
      var last := ps[|ps| - 1];
      var m := Scan(w, h, last.code).Slid(b);
      Scan(w, h, last.code).SlidKeepsTotal(b);
      SpawnedTotal(m, last.draws);
      SpawnStaysBelow(m, last.draws);
    }
  }

  lemma BoardNotEmpty(w: pos, h: pos)
    ensures Area(w, h) >= 1
  {
    RowsIncrease(1, h, w);
  }

  /** No tile of a reachable board exceeds 2^(n+1). */
  lemma RunExponents(w: pos, h: pos, d: Draws, ps: seq<Press>, i: nat)
    requires ValidDraws(d) && ValidPresses(ps) && i < Area(w, h)
    ensures Run(w, h, d, ps)[i] <= Area(w, h) + 1
  {
    RunBound(w, h, d, ps);
    var b := Run(w, h, d, ps);
    TotalAtLeast(b, i);
    if b[i] > Area(w, h) + 1 {
      Pow2Increasing(Area(w, h) + 2, b[i]);
      assert false;
    }
  }

  /** Every effective press that draws below 1 adds a tile, and nothing ever takes weight away. */
  lemma {:induction false} RunGrows(w: pos, h: pos, d: Draws, ps: seq<Press>)
    requires ValidDraws(d) && ValidPresses(ps)
    ensures Missed(w, h, d, ps) <= Effective(w, h, d, ps)
    ensures Total(Run(w, h, d, ps)) >= Total(NewBoard(w, h, d)) + 2 * (Effective(w, h, d, ps) - Missed(w, h, d, ps))
  {
    if ps != [] {
      var before := ps[..|ps| - 1];
      RunGrows(w, h, d, before);
      RunBound(w, h, d, before);
      var b := Run(w, h, d, before);
      var last := ps[|ps| - 1];
      var m := Scan(w, h, last.code).Slid(b);
      Scan(w, h, last.code).SlidKeepsTotal(b);
      SpawnedTotal(m, last.draws);
      if m != b {
        Scan(w, h, last.code).EffectiveMoveLeavesRoom(b);
      }
    }
  }

  /** A first draw of exactly 1 places no tile, and then nothing ever moves. */
  lemma {:induction false} NothingEverMoves(w: pos, h: pos, d: Draws, ps: seq<Press>)
    requires ValidDraws(d) && ValidPresses(ps) && d.place == 1.0
    ensures IsBoard(Run(w, h, d, ps), w, h) && AllEmpty(Run(w, h, d, ps)) && Effective(w, h, d, ps) == 0
  {
    hide Scan.Slid;
    if ps == [] {
      SpawnedTotal(seq(Area(w, h), i => EMPTY), d);
    } else {
      var before, last := ps[..|ps| - 1], ps[|ps| - 1];
      NothingEverMoves(w, h, d, before);
      LostExactly(Run(w, h, d, before), w, h);
      LostMeansStill(Run(w, h, d, before), w, h, 4, last.code);
    }
  }

  /** Every game ends: at most 2^(n+1) - 3 presses are effective, not counting those whose draw was
      exactly 1. */
  lemma EveryGameEnds(w: pos, h: pos, d: Draws, ps: seq<Press>)
    requires ValidDraws(d) && ValidPresses(ps)
    ensures Effective(w, h, d, ps) <= Pow2(Area(w, h) + 1) - 3 + Missed(w, h, d, ps)
  {
    BoardNotEmpty(w, h);
    assert Pow2(Area(w, h) + 2) == 2 * Pow2(Area(w, h) + 1);
    if d.place == 1.0 {
      NothingEverMoves(w, h, d, ps);
      Pow2Increasing(2, Area(w, h) + 1);
      assert Pow2(2) == 4;
    } else {
      RunGrows(w, h, d, ps);
      RunBound(w, h, d, ps);
      var b: seq<int> := seq(Area(w, h), i => EMPTY);
      TotalEmpty(b);
      assert b[0] == EMPTY;
      SpawnedTotal(b, d);
    }
  }

  /** A direction that moves something, if there is one. */
  function Mover(b: seq<int>, w: pos, h: pos): Code {
    if Scan(w, h, UP).Slid(b) != b then UP
    else if Scan(w, h, DOWN).Slid(b) != b then DOWN
    else if Scan(w, h, RIGHT).Slid(b) != b then RIGHT
    else LEFT
  }

  /** The game that never ends: something is moved at each press, and every draw is 1. */
  function Restless(w: pos, h: pos, d: Draws, k: nat): (ps: seq<Press>)
    requires ValidDraws(d)
    ensures |ps| == k && ValidPresses(ps)
  {
    if k == 0 then []
    else
      var ps := Restless(w, h, d, k - 1);
      ps + [Press(Mover(Run(w, h, d, ps), w, h), Draws(1.0, 0.0))]
  }

  /** A board with a tile and an empty cell can move, and a move without a spawn leaves such a board. */
  lemma MoverMoves(b: seq<int>, w: pos, h: pos, p: Press)
    requires IsBoard(b, w, h) && WellFormed(b) && EMPTY in b && Total(b) > 0
    requires p == Press(Mover(b, w, h), Draws(1.0, 0.0))
    ensures Scan(w, h, p.code).Slid(b) != b
    ensures EMPTY in Played(b, w, h, p) && Total(Played(b, w, h, p)) == Total(b)
  {
    hide Scan.Slid;
    if Scan(w, h, p.code).Slid(b) == b {
      forall code: Code
        ensures !CanMove(b, w, h, code)
      {
        assert code == UP || code == DOWN || code == RIGHT || code == LEFT;
      }
      StillMeansLost(b, w, h, 4);
      LostExactly(b, w, h);
      TotalEmpty(b);
      assert false;
    }
    Scan(w, h, p.code).SlidKeepsTotal(b);
    Scan(w, h, p.code).EffectiveMoveLeavesRoom(b);
    SpawnedTotal(Scan(w, h, p.code).Slid(b), p.draws);
  }

  /** With draws of exactly 1, a game on two cells or more goes on for ever: no bound holds without
      counting those draws. */
  lemma {:induction false} MissedDrawsNeverEnd(w: pos, h: pos, d: Draws, k: nat)
    requires ValidDraws(d) && d.place < 1.0 && Area(w, h) >= 2
    ensures Effective(w, h, d, Restless(w, h, d, k)) == Missed(w, h, d, Restless(w, h, d, k)) == k
    ensures var b := Run(w, h, d, Restless(w, h, d, k)); EMPTY in b && Total(b) > 0
  {
    var ps := Restless(w, h, d, k);
    if k == 0 {
      var b: seq<int> := seq(Area(w, h), i => EMPTY);
      TotalEmpty(b);
      assert b[0] == EMPTY;
      SpawnedTotal(b, d);
      EmptiesOfEmpty(b);
      SomeEmpty(Spawned(b, d));
    } else {
      MissedDrawsNeverEnd(w, h, d, k - 1);
      var before := Restless(w, h, d, k - 1);
      assert ps[..|ps| - 1] == before;
      RunBound(w, h, d, before);
      MoverMoves(Run(w, h, d, before), w, h, ps[|ps| - 1]);
    }
  }

  lemma {:induction false} EmptiesOfEmpty(b: seq<int>)
    requires AllEmpty(b)
    ensures Empties(b) == |b|
  {
    if b != [] {
      EmptiesOfEmpty(b[..|b| - 1]);
    }
  }

  /** On a single cell no press is ever effective, so there no draw matters. */
  lemma {:induction false} OneCellNeverMoves(w: pos, h: pos, d: Draws, ps: seq<Press>)
    requires ValidDraws(d) && ValidPresses(ps) && Area(w, h) == 1
    ensures Effective(w, h, d, ps) == 0
  {
    if ps != [] {
      var before, last := ps[..|ps| - 1], ps[|ps| - 1];
      OneCellNeverMoves(w, h, d, before);
      var b := Run(w, h, d, before);
      assert b[0] == EMPTY ==> AllEmpty(b);
      assert b[0] != EMPTY ==> Full(b) && NoEqualNeighbours(b, w);
      LostExactly(b, w, h);
      LostMeansStill(b, w, h, 4, last.code);
    }
  }
}
