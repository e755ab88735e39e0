/** The Minesweeper map as the program keeps it: an array of cells, counters, and a recursive reveal. */
module Minesweeper {
  import opened RowMajor
  import opened MineField
  import opened MineGame

  datatype Pos = Pos(hasMine: bool, hasFlag: bool, isRevealed: bool, nbMinesAround: nat)

  /** Cell `j` comes before column `x` of row `y` in a scan by rows. */
  predicate Before(j: nat, x: int, y: int, w: pos) {
    YOf(j, w) < y || (YOf(j, w) == y && XOf(j, w) < x)
  }

  /** The cells around `i` that a scan of its neighbourhood has passed at column `x` of row `y`. */
  ghost function Passed(f: Field, i: nat, x: int, y: int): set<nat> {
    set j | j in f.All() && f.Near(i, j) && Before(j, x, y, f.w)
  }

  lemma PassedStarts(f: Field, i: nat)
    ensures Passed(f, i, XOf(i, f.w) - 1, YOf(i, f.w) - 1) == {}
  {
  }

  lemma PassedEnds(f: Field, i: nat, j: nat)
    requires f.Near(i, j)
    ensures j in Passed(f, i, XOf(i, f.w) - 1, YOf(i, f.w) + 2)
  {
  }

  lemma PassedRow(f: Field, i: nat, y: int)
    ensures Passed(f, i, XOf(i, f.w) + 2, y) == Passed(f, i, XOf(i, f.w) - 1, y + 1)
  {
  }

  predicate InBounds(x: int, y: int, w: pos, h: pos) {
    0 <= x < w && 0 <= y < h
  }

  /** One step of the scan passes the cell at (x, y), if that is a neighbour of `i`. */
  lemma PassedStep(f: Field, i: nat, x: int, y: int)
    requires i < f.Size() && Within1(x, XOf(i, f.w)) && Within1(y, YOf(i, f.w))
    ensures if (x != XOf(i, f.w) || y != YOf(i, f.w)) && InBounds(x, y, f.w, f.h)
            then var k := Index(x, y, f.w);
                 f.Near(i, k) && Passed(f, i, x + 1, y) == Passed(f, i, x, y) + {k} && k !in Passed(f, i, x, y)
            else Passed(f, i, x + 1, y) == Passed(f, i, x, y)
  {
    hide Index, XOf, YOf;
    CoordinatesInverse(i, f.w, f.h);
    if InBounds(x, y, f.w, f.h) {
      IndexInverse(x, y, f.w, f.h);
    }
    forall j | j in f.All() && XOf(j, f.w) == x && YOf(j, f.w) == y
      ensures InBounds(x, y, f.w, f.h) && j == Index(x, y, f.w)
    {
      CoordinatesInverse(j, f.w, f.h);
    }
  }

  /** One more mine raises the count of its neighbours. */
  lemma CountAdds(f: Field, i: nat, j: nat)
    requires i !in f.mines
    ensures Field(f.w, f.h, f.mines + {i}).Count(j) == f.Count(j) + if f.Near(i, j) then 1 else 0
  {
    var g := Field(f.w, f.h, f.mines + {i});
    if f.Near(i, j) {
      assert g.MinesAround(j) == f.MinesAround(j) + {i};
      assert i !in f.MinesAround(j);
    } else {
      assert g.MinesAround(j) == f.MinesAround(j);
    }
  }

  ghost function Below(s: set<nat>, i: nat): set<nat> {
    set m | m in s && m < i
  }

  lemma BelowEnds(s: set<nat>, n: nat)
    requires s <= Cells(n)
    ensures Below(s, 0) == {} && Below(s, n) == s
  {
  }

  lemma BelowStep(s: set<nat>, i: nat)
    ensures if i in s
            then Below(s, i + 1) == Below(s, i) + {i} && |Below(s, i + 1)| == |Below(s, i)| + 1
            else Below(s, i + 1) == Below(s, i)
  {
    if i in s {
      assert Below(s, i + 1) == Below(s, i) + {i};
    } else {
      assert Below(s, i + 1) == Below(s, i);
    }
  }

  lemma RevealingSafe(s: State, i: nat)
    requires i !in s.field.mines
    ensures var more := s.field.Flood(s.revealed + s.flags, i);
            Revealing(s, i) == s.(revealed := s.revealed + more, nbRevealed := s.nbRevealed + |more|)
  {
  }

  class Map {
    const width: pos
    const height: pos
    const nbMines: nat
    const mapPos: array<Pos>
    var gameOver: bool
    var nbRevealed: int
    var flagCount: int
    var text: Text
    ghost var mines: set<nat>
    ghost var flags: set<nat>
    ghost var revealed: set<nat>

    ghost function FieldOf(): Field
      reads this
    {
      Field(width, height, mines)
    }

    ghost function StateOf(): State
      reads this
    {
      State(FieldOf(), flags, revealed, nbRevealed, flagCount, gameOver, text)
    }

    /** The cells hold the three sets, and each its number of mined neighbours. */
    ghost predicate Valid()
      reads this, mapPos
    {
      && mapPos.Length == Area(width, height)
      && mines <= FieldOf().All() && flags <= FieldOf().All() && revealed <= FieldOf().All()
      && (forall j | 0 <= j < mapPos.Length :: mapPos[j] == CellOf(j, FieldOf().Count(j)))
    }

    ghost function CellOf(j: nat, count: nat): Pos
      reads this
    {
      Pos(j in mines, j in flags, j in revealed, count)
    }

    constructor (width: pos, height: pos, nbMines: nat)
      requires nbMines <= Area(width, height)
      ensures Valid() && fresh(mapPos) && this.width == width && this.height == height
      ensures this.nbMines == nbMines == |mines|
      ensures StateOf() == NewGame(FieldOf())
    {
      this.width, this.height, this.nbMines := width, height, nbMines;
      RowsIsProduct(height, width);
      mapPos := new Pos[height * width](_ => Pos(false, false, false, 0));
      gameOver, nbRevealed, flagCount, text := false, 0, nbMines, NoText;
      mines, flags, revealed := {}, {}, {};
      new;
      NoMines(FieldOf());
      PlaceMines();
    }

    lemma NoMines(f: Field)
      requires f.mines == {}
      ensures forall j :: f.Count(j) == 0
    {
      forall j
        ensures f.Count(j) == 0
      {
        assert f.MinesAround(j) == {};
      }
    }

    /** Places a mine and counts it in the cells around it. */
    method SetMineAtPos(i: nat)
      requires Valid() && i < mapPos.Length && i !in mines
      modifies mapPos, `mines
      ensures Valid() && mines == old(mines) + {i}
    {
      hide Counting, Passed, Field.Near;
      var cx, cy := i % width, i / width;
      CoordinatesAreDivMod(i, width);
      ghost var f := FieldOf();
      PassedStarts(f, i);
      PutMine(f, i);
      var y := cy - 1;
      while y <= cy + 1
        invariant cy - 1 <= y <= cy + 2
        invariant Counting(f, i, Passed(f, i, cx - 1, y))
        decreases cy + 1 - y
      {
        var x := cx - 1;
        while x <= cx + 1
          invariant cx - 1 <= x <= cx + 2
          invariant Counting(f, i, Passed(f, i, x, y))
          decreases cx + 1 - x
        {
          CountOne(f, i, cx, cy, x, y);
          x := x + 1;
        }
        PassedRow(f, i, y);
        y := y + 1;
      }
      Counted(f, i);
    }

    method PutMine(ghost f: Field, i: nat)
      requires Valid() && f == FieldOf() && i < mapPos.Length && i !in mines
      modifies mapPos, `mines
      ensures Counting(f, i, {})
    {
      hide Field.Count;
      mines := mines + {i};
      mapPos[i] := mapPos[i].(hasMine := true);
    }

    lemma Counted(f: Field, i: nat)
      requires Counting(f, i, Passed(f, i, XOf(i, width) - 1, YOf(i, width) + 2))
      ensures Valid() && mines == f.mines + {i}
    {
      hide Field.Count;
      forall j | 0 <= j < mapPos.Length
        ensures mapPos[j] == CellOf(j, FieldOf().Count(j))
      {
        CountAdds(f, i, j);
        if f.Near(i, j) {
          PassedEnds(f, i, j);
        }
      }
    }

    /** Mid-placement of a mine at `i`: the cells of `done` have counted it. */
    ghost predicate Counting(f: Field, i: nat, done: set<nat>)
      reads this, mapPos
    {
      && f.w == width && f.h == height && mapPos.Length == Area(width, height) && i < mapPos.Length
      && f.Valid() && mines == f.mines + {i} && i !in f.mines
      && flags <= f.All() && revealed <= f.All()
      && (forall j | 0 <= j < mapPos.Length ::
            mapPos[j] == CellOf(j, f.Count(j) + if j in done then 1 else 0))
    }

    method CountOne(ghost f: Field, ghost i: nat, cx: int, cy: int, x: int, y: int)
      requires cx == XOf(i, width) && cy == YOf(i, width) && Within1(x, cx) && Within1(y, cy)
      requires Counting(f, i, Passed(f, i, x, y))
      modifies mapPos
      ensures Counting(f, i, Passed(f, i, x + 1, y))
    {
      hide Field.Count, Passed, Field.Near;
      PassedStep(f, i, x, y);
      if (x != cx || y != cy) && CheckBounds(x, y) {
        var k := PosAt(x, y);
        mapPos[k] := mapPos[k].(nbMinesAround := mapPos[k].nbMinesAround + 1);
      }
    }

    predicate CheckBounds(x: int, y: int) {
      x >= 0 && y >= 0 && x < width && y < height
    }

    method PosAt(x: nat, y: nat) returns (k: nat)
      requires CheckBounds(x, y)
      ensures k == Index(x, y, width) < Area(width, height)
    {
      k := y * width + x;
      RowsIsProduct(y, width);
      IndexInverse(x, y, width, height);
    }

    /** Mines as many different cells as asked, wherever the draws fall. */
    method PlaceMines()
      requires Valid() && mines == {} && nbMines <= Area(width, height)
      modifies mapPos, `mines
      ensures Valid() && |mines| == nbMines
    {
      for n := 0 to nbMines
        invariant Valid() && |mines| == n
      {
        RoomForMine();
        var i :| 0 <= i < mapPos.Length && !mapPos[i].hasMine;
        SetMineAtPos(i);
      }
    }

    lemma RoomForMine()
      requires Valid() && |mines| < Area(width, height)
      ensures exists i :: 0 <= i < mapPos.Length && !mapPos[i].hasMine
    {
      if mines == FieldOf().All() {
        assert false;
      }
      var i :| i in FieldOf().All() && i !in mines;
      assert !mapPos[i].hasMine;
    }

    method RevealPositionNoCheck(i: nat)
      requires Valid() && i < mapPos.Length
      modifies mapPos, `nbRevealed, `revealed
      ensures Valid() && revealed == old(revealed) + {i} && nbRevealed == old(nbRevealed) + 1
    {
      hide Field.Count;
      mapPos[i] := mapPos[i].(isRevealed := true);
      nbRevealed := nbRevealed + 1;
      revealed := revealed + {i};
    }

    /** Ends the game and reveals every mine, whether or not it is revealed already. */
    method Defeat()
      requires Valid()
      modifies mapPos, `nbRevealed, `revealed, `gameOver, `text
      ensures Valid()
      ensures StateOf() == old(StateOf()).(revealed := old(revealed) + mines,
                                           nbRevealed := old(nbRevealed) + |mines|,
                                           gameOver := true, text := YouLost)
    {
      hide Field.Count, Valid;
      gameOver := true;
      text := YouLost;
      SameCells();
      RevealMines();
    }

    twostate lemma SameCells()
      requires old(Valid()) && unchanged(mapPos) && unchanged(`mines) && unchanged(`flags) && unchanged(`revealed)
      ensures Valid()
    {
    }

    method RevealMines()
      requires Valid()
      modifies mapPos, `nbRevealed, `revealed
      ensures Valid()
      ensures revealed == old(revealed) + mines && nbRevealed == old(nbRevealed) + |mines|
    {
      hide Below, Valid;
      MinesAreCells();
      for i := 0 to mapPos.Length
        invariant Valid()
        invariant revealed == old(revealed) + Below(mines, i) && nbRevealed == old(nbRevealed) + |Below(mines, i)|
      {
        BelowStep(mines, i);
        CellAgrees(i);
        if mapPos[i].hasMine {
          RevealPositionNoCheck(i);
        }
      }
    }

    lemma MinesAreCells()
      requires Valid()
      ensures Below(mines, 0) == {} && Below(mines, mapPos.Length) == mines
    {
      BelowEnds(mines, Area(width, height));
    }

    lemma CellAgrees(i: nat)
      requires Valid() && i < mapPos.Length
      ensures mapPos[i].hasMine <==> i in mines
    {
    }

    /** Reveals a cell and, while no mine is near, everything around it. */
    method RevealAndExplore(i: nat)
      requires Valid() && i < mapPos.Length && i !in revealed && i !in flags
      modifies mapPos, `nbRevealed, `revealed, `gameOver, `text
      ensures Valid()
      ensures StateOf() == Revealing(old(StateOf()), i)
      decreases |FieldOf().All() - revealed|, 0
    {
      hide Field.Count, Field.Flood, Field.Near, Passed;
      ghost var f, before := FieldOf(), revealed;
      var cx, cy := i % width, i / width;
      CoordinatesAreDivMod(i, width);
      RevealPositionNoCheck(i);
      if mapPos[i].hasMine {
        Defeat();
        assert before + {i} + mines == revealed;
        return;
      }
      FewerHidden(f.All(), before, i);
      ExploreSafe(f, before, i, cx, cy);
    }

    /** The part of a reveal that follows when the revealed cell is safe. */
    method ExploreSafe(ghost f: Field, ghost before: set<nat>, i: nat, cx: int, cy: int)
      requires Valid() && f == FieldOf() && i < mapPos.Length && i !in mines
      requires i !in before && i !in flags && revealed == before + {i}
      requires cx == XOf(i, width) && cy == YOf(i, width)
      modifies mapPos, `nbRevealed, `revealed, `gameOver, `text
      ensures Valid()
      ensures StateOf() == old(StateOf()).(revealed := before + f.Flood(before + flags, i),
                                           nbRevealed := old(nbRevealed) - 1 + |f.Flood(before + flags, i)|)
      decreases |FieldOf().All() - revealed|, 3
    {
      hide Field.Count, Field.Flood, Field.Near, Passed, Field.Exploring;
      StartExploring(f, before, i);
      FloodIsNew(f, before, i);
      if mapPos[i].nbMinesAround > 0 {
        return;
      }
      ExploreAround(f, before, i, cx, cy);
      AllPassed(f, i);
      f.ExploringEnds(flags, before, i, revealed);
      assert revealed - before == f.Flood(before + flags, i);
    }

    lemma AllPassed(f: Field, i: nat)
      ensures forall k | f.Near(i, k) :: k in Passed(f, i, XOf(i, f.w) - 1, YOf(i, f.w) + 2)
    {
      forall k | f.Near(i, k)
        ensures k in Passed(f, i, XOf(i, f.w) - 1, YOf(i, f.w) + 2)
      {
        PassedEnds(f, i, k);
      }
    }

    lemma FewerHidden(all: set<nat>, before: set<nat>, i: nat)
      requires i in all && i !in before
      ensures |all - (before + {i})| < |all - before|
    {
      SubsetCardinality(all - (before + {i}), all - before);
      assert i in all - before;
    }

    lemma StartExploring(f: Field, before: set<nat>, i: nat)
      requires before <= f.All() && i < f.Size() && i !in before && i !in flags && revealed == before + {i}
      ensures f.Exploring(flags, before, i, revealed) && revealed - before == {i}
      ensures i in f.Flood(before + flags, i)
      ensures !f.Clear(i) ==> f.Flood(before + flags, i) == {i}
    {
      f.ExploringStarts(flags, before, i);
      f.FloodStart(before + flags, i);
      if !f.Clear(i) {
        f.FloodOfUnclear(before + flags, i);
      }
    }

    lemma FloodIsNew(f: Field, before: set<nat>, i: nat)
      ensures f.Flood(before + flags, i) !! before
    {
      forall j | j in f.Flood(before + flags, i)
        ensures j !in before
      {
        var p :| f.Walk(before + flags, p) && p[0] == i && p[|p| - 1] == j;
      }
    }

    /** The state while the cell `i` is explored, starting from the revealed cells `before`. */
    twostate predicate MidExploration(f: Field, before: set<nat>, i: nat)
      reads this, mapPos
    {
      && Valid() && f == FieldOf() && before <= old(revealed)
      && f.Exploring(flags, before, i, revealed)
      && StateOf() == old(StateOf()).(revealed := revealed, nbRevealed := nbRevealed)
      && nbRevealed == old(nbRevealed) + |revealed - before| - |old(revealed) - before|
    }

    /** Explores the hidden neighbours of a clear cell, row by row. */
    method ExploreAround(ghost f: Field, ghost before: set<nat>, i: nat, cx: int, cy: int)
      requires Valid() && f == FieldOf() && i < mapPos.Length && i in revealed && i !in before && i !in flags
      requires cx == XOf(i, width) && cy == YOf(i, width)
      requires i !in mines && f.Clear(i) && before <= revealed && f.Exploring(flags, before, i, revealed)
      modifies mapPos, `nbRevealed, `revealed, `gameOver, `text
      ensures MidExploration(f, before, i)
      ensures Passed(f, i, cx - 1, cy + 2) - flags <= revealed
      decreases |FieldOf().All() - revealed|, 2
    {
      hide Field.Count, Field.Flood, Field.Near, Passed, Field.Exploring;
      PassedStarts(f, i);
      var y := cy - 1;
      while y <= cy + 1
        invariant cy - 1 <= y <= cy + 2 && MidExploration(f, before, i) && old(revealed) <= revealed
        invariant Passed(f, i, cx - 1, y) - flags <= revealed
        decreases cy + 1 - y
      {
        var x := cx - 1;
        while x <= cx + 1
          invariant cx - 1 <= x <= cx + 2 && MidExploration(f, before, i) && old(revealed) <= revealed
          invariant Passed(f, i, x, y) - flags <= revealed
          decreases cx + 1 - x
        {
          SubsetCardinality(f.All() - revealed, f.All() - old(revealed));
          ExploreOne(f, before, i, cx, cy, x, y);
          x := x + 1;
        }
        PassedRow(f, i, y);
        y := y + 1;
      }
    }

    /** Explores the neighbour at (x, y), if there is one and it is hidden and not flagged. */
    method ExploreOne(ghost f: Field, ghost before: set<nat>, i: nat, cx: int, cy: int, x: int, y: int)
      requires Valid() && f == FieldOf() && i < mapPos.Length && i in revealed && i !in before && i !in flags
      requires cx == XOf(i, width) && cy == YOf(i, width) && Within1(x, cx) && Within1(y, cy)
      requires i !in mines && f.Clear(i) && before <= revealed && f.Exploring(flags, before, i, revealed)
      requires Passed(f, i, x, y) - flags <= revealed
      modifies mapPos, `nbRevealed, `revealed, `gameOver, `text
      ensures MidExploration(f, before, i) && old(revealed) <= revealed
      ensures Passed(f, i, x + 1, y) - flags <= revealed
      decreases |FieldOf().All() - revealed|, 1
    {
      hide Field.Count, Field.Flood, Field.Near, Passed, Field.Exploring, Revealing;
      PassedStep(f, i, x, y);
      if (x != cx || y != cy) && CheckBounds(x, y) {
        var next := PosAt(x, y);
        if !mapPos[next].isRevealed && !mapPos[next].hasFlag {
          HiddenNeighbour(f, before, i, next);
          RevealingSafe(StateOf(), next);
          RevealAndExplore(next);
        }
      }
    }

    /** What exploring a hidden neighbour will do. */
    lemma HiddenNeighbour(f: Field, before: set<nat>, i: nat, next: nat)
      requires i !in before && i !in flags && f.Clear(i) && before <= revealed && f.Exploring(flags, before, i, revealed)
      requires f.Near(i, next) && next !in revealed && next !in flags
      ensures var more := f.Flood(revealed + flags, next);
              && f.Exploring(flags, before, i, revealed + more)
              && next in more && next !in f.mines
              && |revealed + more - before| == |revealed - before| + |more|
    {
      var more := f.Flood(revealed + flags, next);
      f.ClearHasNoMine(i, next);
      f.ExploringStep(flags, before, i, revealed, next);
      FloodIsNew(f, revealed, next);
      DisjointCardinality(revealed - before, more);
      assert revealed + more - before == (revealed - before) + more;
    }

    method CheckVictory()
      requires Valid() && nbMines == |mines|
      modifies `gameOver, `text
      ensures Valid() && StateOf() == CheckedVictory(old(StateOf()))
    {
      RowsIsProduct(height, width);
      if nbRevealed + nbMines == width * height {
        gameOver := true;
        text := YouWon;
      }
    }

    /** Puts a flag on a cell or takes it off, and counts the flags that are left. */
    method SwitchFlag(i: nat)
      requires Valid() && i < mapPos.Length
      modifies mapPos, `flagCount, `flags
      ensures Valid() && StateOf() == FlagSwitched(old(StateOf()), i)
      ensures FlagTurned(i)
    {
      hide Field.Count;
      mapPos[i] := mapPos[i].(hasFlag := !mapPos[i].hasFlag);
      if mapPos[i].hasFlag {
        flags := flags + {i};
        flagCount := flagCount - 1;
      } else {
        flags := flags - {i};
        flagCount := flagCount + 1;
      }
    }

    /** The flag on one cell has changed, the counter goes the other way, and every other cell is as it was. */
    twostate predicate FlagTurned(i: nat)
      reads this, mapPos
    {
      i < mapPos.Length
      && mapPos[i] == old(mapPos[i]).(hasFlag := !old(mapPos[i].hasFlag))
      && flagCount == old(flagCount) + (if old(mapPos[i].hasFlag) then 1 else -1)
      && forall j | 0 <= j < mapPos.Length && j != i :: mapPos[j] == old(mapPos[j])
    }

    /** Handles a mouse press on cell `i`, and tells whether it was used. */
    method HandlePosEvent(i: nat, button: Button) returns (used: bool)
      requires Valid() && i < mapPos.Length && nbMines == |mines|
      modifies this, mapPos
      ensures Valid() && mines == old(mines)
      ensures StateOf() == Clicked(old(StateOf()), Click(i, button))
      ensures !used ==> StateOf() == old(StateOf())
      ensures used <==> !old(gameOver) && i !in old(revealed)
                        && (button.RightButton? || (button.LeftButton? && i !in old(flags)))
      ensures used && button.RightButton? ==> FlagTurned(i)
    {
      hide Field.Count, Field.Flood;
      if gameOver {
        return false;
      }
      if button.LeftButton? {
        if !mapPos[i].hasFlag && !mapPos[i].isRevealed {
          RevealAndExplore(i);
          CheckVictory();
          return true;
        }
      } else if button.RightButton? {
        if !mapPos[i].isRevealed {
          SwitchFlag(i);
          return true;
        }
      }
      return false;
    }

    /** Starts over: clears every cell and places the mines again. */
    method ResetGame()
      requires Valid() && nbMines <= Area(width, height)
      modifies this, mapPos
      ensures Valid() && |mines| == nbMines
      ensures StateOf() == NewGame(FieldOf())
    {
      flagCount, gameOver, nbRevealed, text := nbMines, false, 0, NoText;
      for i := 0 to mapPos.Length
        invariant mapPos.Length == Area(width, height) && flagCount == nbMines
        invariant !gameOver && nbRevealed == 0 && text == NoText
        invariant forall j | 0 <= j < i :: mapPos[j] == Pos(false, false, false, 0)
      {
        mapPos[i] := Pos(false, false, false, 0);
      }
      mines, flags, revealed := {}, {}, {};
      NoMines(FieldOf());
      PlaceMines();
    }
  }
}
