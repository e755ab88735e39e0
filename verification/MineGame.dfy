/** Whole Minesweeper games as runs of clicks: what every run keeps, and how games end. */
module MineGame {
  import opened RowMajor
  import opened MineField

  datatype Text = NoText | YouWon | YouLost

  datatype Button = LeftButton | RightButton | OtherButton

  datatype Click = Click(cell: nat, button: Button)

  datatype State = State(field: Field, flags: set<nat>, revealed: set<nat>,
                         nbRevealed: int, flagCount: int, gameOver: bool, text: Text)

  ghost function NewGame(field: Field): State {
    State(field, {}, {}, 0, |field.mines|, false, NoText)
  }

  /** Declares victory when the counter says that only the mines are left. */
  ghost function CheckedVictory(s: State): State {
    if s.nbRevealed + |s.field.mines| == s.field.Size() then s.(gameOver := true, text := YouWon) else s
  }

  /** Reveals the flood of a safe cell; a mine reveals itself and then, again, every mine. */
  ghost function Revealing(s: State, i: nat): State {
    if i in s.field.mines then
      s.(revealed := s.revealed + {i} + s.field.mines,
         nbRevealed := s.nbRevealed + 1 + |s.field.mines|,
         gameOver := true, text := YouLost)
    else
      var more := s.field.Flood(s.revealed + s.flags, i);
      s.(revealed := s.revealed + more, nbRevealed := s.nbRevealed + |more|)
  }

  ghost function FlagSwitched(s: State, i: nat): State {
    if i in s.flags then s.(flags := s.flags - {i}, flagCount := s.flagCount + 1)
    else s.(flags := s.flags + {i}, flagCount := s.flagCount - 1)
  }

  ghost function Clicked(s: State, c: Click): State {
    if s.gameOver then s
    else if c.button == LeftButton && c.cell !in s.flags && c.cell !in s.revealed then
      CheckedVictory(Revealing(s, c.cell))
    else if c.button == RightButton && c.cell !in s.revealed then FlagSwitched(s, c.cell)
    else s
  }

  ghost predicate OnBoard(field: Field, cs: seq<Click>) {
    forall k | 0 <= k < |cs| :: cs[k].cell < field.Size()
  }

  ghost function Run(field: Field, cs: seq<Click>): State {
    if cs == [] then NewGame(field) else Clicked(Run(field, cs[..|cs| - 1]), cs[|cs| - 1])
  }

  // ----- what every run keeps -----

  /** The counters tell the truth, no mine is revealed and no flag stands on a revealed cell. */
  ghost predicate InPlay(s: State) {
    && s.field.Valid() && s.flags <= s.field.All() && s.revealed <= s.field.All()
    && s.revealed !! s.field.mines && s.flags !! s.revealed
    && s.nbRevealed == |s.revealed|
    && s.flagCount + |s.flags| == |s.field.mines|
    && !s.gameOver && s.text == NoText
  }

  /** Every safe cell is revealed and no mine is. */
  ghost predicate Cleared(s: State) {
    s.revealed == s.field.All() - s.field.mines
  }

  /** A game that ended: cleared and won, or blown up. */
  ghost predicate Ended(s: State) {
    && s.field.Valid() && s.gameOver
    && s.flagCount + |s.flags| == |s.field.mines|
    && (if s.revealed !! s.field.mines
        then Cleared(s) && s.nbRevealed == |s.revealed| && s.text == YouWon
        else s.field.mines <= s.revealed && s.nbRevealed == |s.revealed| + 1
             && s.text == if s.nbRevealed + |s.field.mines| == s.field.Size() then YouWon else YouLost)
  }

  lemma {:induction false} SubsetCardinality(a: set<nat>, b: set<nat>)
    requires a <= b
    ensures |a| <= |b|
    ensures |a| == |b| <==> a == b
  {
    assert b == a + (b - a);
    assert a !! b - a;
  }

  lemma DisjointCardinality(a: set<nat>, b: set<nat>)
    requires a !! b
    ensures |a + b| == |a| + |b|
  {
  }

  lemma FloodFacts(s: State, i: nat)
    requires InPlay(s) && i < s.field.Size() && i !in s.field.mines
    requires i !in s.flags && i !in s.revealed
    ensures var more := s.field.Flood(s.revealed + s.flags, i);
            i in more && more !! s.revealed && more !! s.flags && more !! s.field.mines && more <= s.field.All()
  {
    var more := s.field.Flood(s.revealed + s.flags, i);
    s.field.FloodStart(s.revealed + s.flags, i);
    forall j | j in more
      ensures j !in s.field.mines && j !in s.revealed + s.flags && j < s.field.Size()
    {
      s.field.FloodIsSafe(s.revealed + s.flags, i, j);
    }
  }

  /** The counter test is exact as long as no mine is revealed. */
  lemma CounterTest(field: Field, revealed: set<nat>)
    requires field.Valid() && revealed <= field.All() && revealed !! field.mines
    ensures |revealed| + |field.mines| == field.Size() <==> revealed == field.All() - field.mines
  {
    var safe := field.All() - field.mines;
    DisjointCardinality(safe, field.mines);
    assert safe + field.mines == field.All();
    SubsetCardinality(revealed, safe);
  }

  /** A safe click reveals exactly the flood, and ends the game exactly when it reveals the
      last safe cell. */
  lemma SafeClick(s: State, i: nat)
    requires InPlay(s) && i < s.field.Size() && i !in s.field.mines
    requires i !in s.flags && i !in s.revealed
    ensures var t := Clicked(s, Click(i, LeftButton));
            && t.revealed == s.revealed + s.field.Flood(s.revealed + s.flags, i)
            && |t.revealed| > |s.revealed|
            && (t.gameOver <==> Cleared(t))
            && if t.gameOver then Ended(t) && t.text == YouWon else InPlay(t)
  {
    var more := s.field.Flood(s.revealed + s.flags, i);
    FloodFacts(s, i);
    DisjointCardinality(s.revealed, more);
    CounterTest(s.field, s.revealed + more);
    SubsetCardinality({i}, more);
  }

  /** A click on a mine ends the game. It announces a defeat, except when the counter, which
      has counted that mine twice, happens to equal the number of safe cells. */
  lemma MineClick(s: State, i: nat)
    requires InPlay(s) && i in s.field.mines && i !in s.flags
    ensures var t := Clicked(s, Click(i, LeftButton));
            && Ended(t) && s.field.mines <= t.revealed
            && t.text == if |s.revealed| + 2 * |s.field.mines| + 1 == s.field.Size() then YouWon else YouLost
  {
    var m := s.field.mines;
    DisjointCardinality(s.revealed, m);
    assert s.revealed + {i} + m == s.revealed + m;
    assert i in s.revealed + m && i in m;
  }

  /** A right click on a hidden cell puts a flag on it or takes it off, and counts it; a second one takes
      the first back. On a revealed cell it does nothing. */
  lemma FlagClick(s: State, i: nat)
    requires InPlay(s) && i < s.field.Size()
    ensures var t := Clicked(s, Click(i, RightButton));
            && InPlay(t) && t.revealed == s.revealed
            && (i in s.revealed ==> t == s)
            && (i !in s.revealed ==>
                  && ((i in t.flags) != (i in s.flags)) && (forall j | j != i :: j in t.flags <==> j in s.flags)
                  && t.flagCount == (if i in s.flags then s.flagCount + 1 else s.flagCount - 1)
                  && t.flagCount + |t.flags| == s.flagCount + |s.flags|)
            && Clicked(t, Click(i, RightButton)) == s
  {
    if i in s.flags {
      DisjointCardinality(s.flags - {i}, {i});
      assert s.flags == s.flags - {i} + {i};
    } else {
      DisjointCardinality(s.flags, {i});
      assert s.flags + {i} - {i} == s.flags;
    }
  }

  /** Every state of every game is in play with true counters, or ended. */
  lemma {:induction false} EveryRun(field: Field, cs: seq<Click>)
    requires field.Valid() && OnBoard(field, cs)
    ensures Run(field, cs).field == field
    ensures InPlay(Run(field, cs)) || Ended(Run(field, cs))
  {
    if cs != [] {
      var s, c := Run(field, cs[..|cs| - 1]), cs[|cs| - 1];
      EveryRun(field, cs[..|cs| - 1]);
      if InPlay(s) {
        if c.button == RightButton {
          FlagClick(s, c.cell);
        } else if c.button == LeftButton && c.cell !in s.flags && c.cell !in s.revealed {
          if c.cell in field.mines {
            MineClick(s, c.cell);
          } else {
            SafeClick(s, c.cell);
          }
        }
      }
    }
  }

  /** The announced result is wrong for exactly one kind of click: a mine, when the safe cells
      not yet revealed are one more than the mines. */
  lemma VictoryIsAnnouncedExactly(s: State, i: nat)
    requires InPlay(s) && i < s.field.Size() && i !in s.flags && i !in s.revealed
    ensures var t := Clicked(s, Click(i, LeftButton));
            t.text == YouWon <==>
              if i in s.field.mines then |s.field.All() - s.field.mines - s.revealed| == |s.field.mines| + 1
              else Cleared(t)
  {
    var m, r := s.field.mines, s.revealed;
    if i in m {
      MineClick(s, i);
      DisjointCardinality(s.field.All() - m - r, r);
      DisjointCardinality(s.field.All() - m - r + r, m);
      assert s.field.All() - m - r + r + m == s.field.All();
    } else {
      SafeClick(s, i);
    }
  }

  lemma FourCells(w: pos, h: pos)
    requires w == 4 && h == 1
    ensures var f := Field(w, h, {0});
            f.Size() == 4 && f.Valid() && f.Flood({}, 1) == {1}
  {
    var f := Field(w, h, {0});
    assert Rows(h, w) == 4 by { assert Rows(0, w) == 0; }
    assert f.Near(1, 0);
    assert 0 in f.MinesAround(1);
    f.FloodOfUnclear({}, 1);
  }

  lemma TwoClicks(f: Field, a: Click, b: Click)
    ensures Run(f, [a, b]) == Clicked(Clicked(NewGame(f), a), b)
  {
    hide Clicked;
    var cs := [a, b];
    assert cs[..1] == [a] && cs[..1][..0] == [];
    assert Run(f, cs[..1]) == Clicked(NewGame(f), a);
  }

  /** Such a click exists: four cells in a row, a mine under the first. Revealing the second
      and then stepping on the mine announces a victory. */
  lemma SteppingOnAMineCanWin(w: pos, h: pos)
    requires w == 4 && h == 1
    ensures var s := Run(Field(w, h, {0}), [Click(1, LeftButton), Click(0, LeftButton)]);
            s.text == YouWon && 0 in s.revealed && 0 in s.field.mines && 3 !in s.revealed
  {
    hide Field.Flood, Field.Near;
    var f := Field(w, h, {0});
    FourCells(w, h);
    TwoClicks(f, Click(1, LeftButton), Click(0, LeftButton));
    var start := NewGame(f);
    assert start.revealed + start.flags == {};
    SafeClick(start, 1);
    var s := Clicked(start, Click(1, LeftButton));
    assert s.revealed == {1};
    assert 3 in f.All() - f.mines;
    MineClick(s, 0);
  }

  // ----- the order of safe clicks -----

  ghost predicate SafeCells(field: Field, cells: seq<nat>) {
    forall k | 0 <= k < |cells| :: cells[k] < field.Size() && cells[k] !in field.mines
  }

  function LeftClicks(cells: seq<nat>): (cs: seq<Click>)
    ensures |cs| == |cells|
  {
    if cells == [] then [] else LeftClicks(cells[..|cells| - 1]) + [Click(cells[|cells| - 1], LeftButton)]
  }

  /** The cells that some cell of `cells` floods on an untouched board. */
  ghost function Floods(field: Field, cells: set<nat>): set<nat> {
    set j, c | c in cells && j in field.Flood({}, c) :: j
  }

  ghost function Elements(cells: seq<nat>): set<nat> {
    set c | c in cells
  }

  /** The state after safe clicks on the cells of `clicked`, in any order, without flags. */
  ghost predicate AfterSafeClicks(field: Field, clicked: set<nat>, s: State) {
    && s.field == field && s.flags == {}
    && (InPlay(s) || (Ended(s) && Cleared(s)))
    && s.revealed == Floods(field, clicked)
    && (s.gameOver <==> clicked != {} && Cleared(s))
  }

  /** A cleared board already shows every safe flood. */
  lemma FloodInsideCleared(field: Field, i: nat)
    requires i < field.Size() && i !in field.mines
    ensures field.Flood({}, i) <= field.All() - field.mines
  {
    forall j | j in field.Flood({}, i)
      ensures j in field.All() - field.mines
    {
      field.FloodIsSafe({}, i, j);
    }
  }

  lemma FloodsAdd(field: Field, clicked: set<nat>, i: nat)
    ensures Floods(field, clicked + {i}) == Floods(field, clicked) + field.Flood({}, i)
  {
    hide Field.Flood;
  }

  lemma SafeClickAdds(field: Field, clicked: set<nat>, s: State, i: nat)
    requires field.Valid() && i < field.Size() && i !in field.mines
    requires AfterSafeClicks(field, clicked, s) && field.Explored(s.revealed)
    ensures var t := Clicked(s, Click(i, LeftButton));
            AfterSafeClicks(field, clicked + {i}, t) && field.Explored(t.revealed)
  {
    hide Field.Explored, Field.Flood, Ended, Floods;
    FloodsAdd(field, clicked, i);
    assert i in clicked + {i};
    if s.gameOver {
      FloodInsideCleared(field, i);
    } else if i in s.revealed {
      field.FloodInsideExplored(s.revealed, i);
      assert clicked != {} by { NoFloods(field, clicked, i); }
    } else {
      NewSafeClick(field, clicked, s, i);
    }
  }

  lemma NoFloods(field: Field, clicked: set<nat>, i: nat)
    requires i in Floods(field, clicked)
    ensures clicked != {}
  {
  }

  lemma NewSafeClick(field: Field, clicked: set<nat>, s: State, i: nat)
    requires field.Valid() && i < field.Size() && i !in field.mines && i !in s.revealed
    requires AfterSafeClicks(field, clicked, s) && field.Explored(s.revealed) && !s.gameOver
    ensures var t := Clicked(s, Click(i, LeftButton));
            AfterSafeClicks(field, clicked + {i}, t) && field.Explored(t.revealed)
  {
    hide Field.Explored, Field.Flood, Ended, Floods, InPlay, Revealing, CheckedVictory;
    assert InPlay(s) && s.flags == {};
    SafeClickBasics(s, i);
    SafeClick(s, i);
    FloodsAdd(field, clicked, i);
    field.FloodOnExplored(s.revealed, i);
    assert s.revealed + s.flags == s.revealed;
    assert i in clicked + {i};
  }

  lemma SafeClickBasics(s: State, i: nat)
    requires InPlay(s) && i !in s.field.mines && i !in s.revealed && i !in s.flags
    ensures Clicked(s, Click(i, LeftButton)).field == s.field
    ensures Clicked(s, Click(i, LeftButton)).flags == s.flags
  {
  }

  /** Safe clicks without flags reveal the union of the floods of the clicked cells, and end
      the game exactly when that is every safe cell. */
  lemma {:induction false} SafeClicksReveal(field: Field, cells: seq<nat>)
    requires field.Valid() && SafeCells(field, cells)
    ensures AfterSafeClicks(field, Elements(cells), Run(field, LeftClicks(cells)))
    ensures field.Explored(Run(field, LeftClicks(cells)).revealed)
  {
    if cells == [] {
      assert Elements(cells) == {} && Floods(field, {}) == {};
    } else {
      hide AfterSafeClicks, Field.Explored;
      var init, last := cells[..|cells| - 1], cells[|cells| - 1];
      var cs := LeftClicks(cells);
      assert cs[..|cs| - 1] == LeftClicks(init);
      assert cells == init + [last];
      assert Elements(cells) == Elements(init) + {last};
      SafeClicksReveal(field, init);
      SafeClickAdds(field, Elements(init), Run(field, LeftClicks(init)), last);
    }
  }

  /** The order of safe clicks, and their repetition, does not matter. */
  lemma ClickOrderDoesNotMatter(field: Field, cells: seq<nat>, others: seq<nat>)
    requires field.Valid() && SafeCells(field, cells) && SafeCells(field, others)
    requires Elements(cells) == Elements(others)
    ensures Run(field, LeftClicks(cells)) == Run(field, LeftClicks(others))
  {
    SafeClicksReveal(field, cells);
    SafeClicksReveal(field, others);
  }
}
