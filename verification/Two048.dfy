/** The 2048 game as the program runs it: one array of tiles, rewritten in place by four scans. */
module Two048 {
  import opened RowMajor
  import opened SlideLine
  import opened SlideBoard
  import opened Game2048

  lemma GapGrows(line: seq<int>, k: nat)
    requires k < |line|
    ensures HasGap(line[..k + 1]) <==> HasGap(line[..k]) || (EMPTY in line[..k] && line[k] != EMPTY)
  {
    var s, r := line[..k], line[..k + 1];
    if HasGap(s) {
      var i, j :| 0 <= i < j < k && s[i] == EMPTY && s[j] != EMPTY;
      assert r[i] == EMPTY && r[j] != EMPTY;
    }
    if EMPTY in s && line[k] != EMPTY {
      var i :| 0 <= i < k && s[i] == EMPTY;
      assert r[i] == EMPTY && r[k] != EMPTY;
    }
    if HasGap(r) {
      var i, j :| 0 <= i < j <= k && r[i] == EMPTY && r[j] != EMPTY;
      if j < k {
        assert s[i] == EMPTY && s[j] != EMPTY;
      } else {
        assert s[i] == EMPTY;
      }
    }
  }

  lemma StartOfLine(line: seq<int>)
    ensures Pack(line[..0]) == [] && !HasGap(line[..0])
  {
  }

  /** What one more cell of the scan adds to the list and to the gap test. */
  lemma NextOfLine(line: seq<int>, k: nat)
    requires k < |line|
    ensures Pack(line[..k + 1]) == Pack(line[..k]) + if line[k] == EMPTY then [] else [line[k]]
    ensures EMPTY in line[..k + 1] <==> EMPTY in line[..k] || line[k] == EMPTY
    ensures HasGap(line[..k + 1]) <==> HasGap(line[..k]) || (EMPTY in line[..k] && line[k] != EMPTY)
  {
    assert line[..k + 1][..k] == line[..k] && line[..k + 1] == line[..k] + [line[k]];
    GapGrows(line, k);
  }

  class Game {
    const nbTileX: pos
    const nbTileY: pos
    const tileValues: array<int>
    const dirs: array<Direction>

    ghost predicate Valid()
      reads this, tileValues, dirs
    {
      && tileValues.Length == Area(nbTileX, nbTileY)
      && dirs.Length == 4
      && (forall c: Code :: dirs[c] == DirectionOf(nbTileX, nbTileY, c))
    }

    ghost function Board(): (b: seq<int>)
      reads this, tileValues, dirs
      requires Valid()
      ensures IsBoard(b, nbTileX, nbTileY)
    {
      tileValues[..]
    }

    ghost function ScanOf(dirCode: Code): Scan {
      Scan(nbTileX, nbTileY, dirCode)
    }

    /** A new game: an empty board, the four scans, and the first tile. */
    constructor (nbTileX: pos, nbTileY: pos, draws: Draws)
      requires ValidDraws(draws)
      ensures Valid() && this.nbTileX == nbTileX && this.nbTileY == nbTileY
      ensures fresh(tileValues) && fresh(dirs) && dirs.Length == 4
      ensures dirs[0] == Direction(0, nbTileY, 1, nbTileX, 1, nbTileX)
      ensures dirs[1] == Direction(nbTileY - 1, -1, -1, nbTileX, 1, nbTileX)
      ensures dirs[2] == Direction(nbTileX - 1, -1, -1, nbTileY, nbTileX, 1)
      ensures dirs[3] == Direction(0, nbTileX, 1, nbTileY, nbTileX, 1)
      ensures Board() == NewBoard(nbTileX, nbTileY, draws)
    {
      this.nbTileX := nbTileX;
      this.nbTileY := nbTileY;
      RowsIsProduct(nbTileY, nbTileX);
      var values := new int[nbTileX * nbTileY](_ => EMPTY);
      tileValues := values;
      var settings := new Direction[4](_ => Direction(0, nbTileY, 1, nbTileX, 1, nbTileX));
      settings[1] := Direction(nbTileY - 1, -1, -1, nbTileX, 1, nbTileX);
      settings[2] := Direction(nbTileX - 1, -1, -1, nbTileY, nbTileX, 1);
      settings[3] := Direction(0, nbTileX, 1, nbTileY, nbTileX, 1);
      dirs := settings;
      new;
      assert Board() == seq(Area(nbTileX, nbTileY), i => EMPTY);
      var lost := AddTile(draws);
    }

    /** The tile at scan coordinates (t, s), `k` steps into the scan. */
    method TileAt(dirCode: Code, t: nat, s: int, ghost k: nat) returns (value: int)
      requires Valid() && t < ScanOf(dirCode).Count()
      requires k < ScanOf(dirCode).Length() && s == ScanOf(dirCode).Position(k)
      ensures value == ScanOf(dirCode).Line(Board(), t)[k]
    {
      var dd := dirs[dirCode];
      var tile := t * dd.tMul + s * dd.sMul;
      ScanOf(dirCode).CellIsScanned(t, k);
      ScanOf(dirCode).LineAt(Board(), t, k);
      value := tileValues[tile];
    }

    /** Lists the tiles of one line, and tells whether one of them can slide over a space. */
    method ListTiles(dirCode: Code, t: nat, valList: array<int>) returns (n: nat, gap: bool)
      requires Valid() && t < ScanOf(dirCode).Count()
      requires valList.Length >= ScanOf(dirCode).Length() && valList != tileValues
      modifies valList
      ensures n <= ScanOf(dirCode).Length()
      ensures valList[..n] == Pack(ScanOf(dirCode).Line(Board(), t))
      ensures gap == HasGap(ScanOf(dirCode).Line(Board(), t))
    {
      hide Scan.Line, HasGap, Pack;
      var dd := dirs[dirCode];
      var spaceArmed := false;
      n, gap := 0, false;
      var s := dd.start;
      ghost var k := 0;
      ghost var b := Board();
      ghost var line := ScanOf(dirCode).Line(b, t);
      ScanOf(dirCode).Positions(0);
      StartOfLine(line);
      while s != dd.end
        invariant 0 <= k <= |line| && n <= k
        invariant s == ScanOf(dirCode).Position(k) && (s == dd.end <==> k == |line|)
        invariant Board() == b
        invariant valList[..n] == Pack(line[..k])
        invariant spaceArmed == (EMPTY in line[..k])
        invariant gap == HasGap(line[..k])
        decreases |line| - k
      {
        var value := TileAt(dirCode, t, s, k);
        NextOfLine(line, k);
        if value != EMPTY {
          valList[n] := value;
          n := n + 1;
          if spaceArmed {
            gap := true;
          }
        } else {
          spaceArmed := true;
        }
        ScanOf(dirCode).Positions(k + 1);
        s := s + dd.incr;
        k := k + 1;
      }
      assert line[..k] == line;
    }

    /** Merges the listed tiles into a second list. */
    method MergeTiles(valList: array<int>, n: nat, newList: array<int>) returns (m: nat, merged: bool)
      requires n <= valList.Length && n <= newList.Length && valList != newList
      modifies newList
      ensures m <= n && newList[..m] == Merge(valList[..n])
      ensures merged == HasPair(valList[..n])
    {
      hide HasPair, Merge;
      ghost var vals := valList[..n];
      MergeOfNothing(vals);
      m, merged := 0, false;
      var q := 0;
      while q < n
        invariant 0 <= q <= n && m <= q
        invariant newList[..m] + Merge(vals[q..]) == Merge(vals)
        invariant merged == (m < q)
      {
        ghost var done := newList[..m];
        MergeAt(vals, q, done);
        if q < n - 1 && valList[q] == valList[q + 1] {
          newList[m] := valList[q] + 1;
          assert newList[..m + 1] == done + [vals[q] + 1];
          q := q + 1;
          merged := true;
        } else {
          newList[m] := valList[q];
          assert newList[..m + 1] == done + [vals[q]];
        }
        m := m + 1;
        q := q + 1;
      }
      MergeOfPairless(vals);
    }

    lemma MergeOfNothing(vals: seq<int>)
      ensures Merge(vals[|vals|..]) == [] && vals[0..] == vals
    {
    }

    /** Writes the merged tiles back to their line, followed by spaces. */
    method WriteLine(dirCode: Code, t: nat, newList: array<int>, m: nat)
      requires Valid() && t < ScanOf(dirCode).Count()
      requires m <= newList.Length && newList != tileValues
      modifies tileValues
      ensures Valid()
      ensures Board() == ScanOf(dirCode).Rewritten(old(Board()), t, newList[..m], ScanOf(dirCode).Length())
    {
      hide Scan.Rewritten;
      var dd := dirs[dirCode];
      var s, q := dd.start, 0;
      ghost var b, z := Board(), ScanOf(dirCode);
      z.Positions(0);
      z.RewrittenNothing(b, t, newList[..m]);
      while s != dd.end
        invariant 0 <= q <= z.Length() && Valid()
        invariant s == z.Position(q) && (s == dd.end <==> q == z.Length())
        invariant Board() == z.Rewritten(b, t, newList[..m], q)
        decreases z.Length() - q
      {
        var tile := t * dd.tMul + s * dd.sMul;
        z.CellIsScanned(t, q);
        z.RewrittenStep(b, t, newList[..m], q);
        if q < m {
          tileValues[tile] := newList[q];
        } else {
          tileValues[tile] := EMPTY;
        }
        z.Positions(q + 1);
        s := s + dd.incr;
        q := q + 1;
      }
    }

    /** Slides one line of the board in place, or only tells whether it would change. */
    method SlideOne(dirCode: Code, t: nat, test: bool, valList: array<int>, newList: array<int>, ghost b: seq<int>)
      returns (move: bool)
      requires Valid() && t < ScanOf(dirCode).Count()
      requires valList.Length >= ScanOf(dirCode).Length() && newList.Length >= valList.Length
      requires valList != tileValues && newList != tileValues && valList != newList
      requires IsBoard(b, nbTileX, nbTileY) && Board() == if test then b else ScanOf(dirCode).HalfSlid(b, t)
      modifies tileValues, valList, newList
      ensures Valid()
      ensures Board() == if test then b else ScanOf(dirCode).HalfSlid(b, t + 1)
      ensures move == ScanOf(dirCode).LineMoves(b, t)
    {
      hide Scan.Line, Scan.HalfSlid, Scan.Rewritten, Pack, Merge, Slide, HasGap, HasPair;
      ghost var z := ScanOf(dirCode);
      z.HalfSlidLine(b, t);
      var n, gap := ListTiles(dirCode, t, valList);
      var m, merged := MergeTiles(valList, n, newList);
      move := gap || merged;
      SlideChanges(z.Line(b, t));
      if !test {
        WriteLine(dirCode, t, newList, m);
        z.HalfSlidStep(b, t);
      }
    }

    /** Handles a direction key. With `test`, only tells whether the key would move a tile, and
        stops at the first line that would. */
    method HandleDirKey(dirCode: Code, test: bool, draws: Draws) returns (move: bool, lost: bool)
      requires Valid() && ValidDraws(draws)
      modifies tileValues
      ensures Valid()
      ensures move == CanMove(old(Board()), nbTileX, nbTileY, dirCode)
      ensures Board() == if test then old(Board())
                         else Played(old(Board()), nbTileX, nbTileY, Press(dirCode, draws))
      ensures lost <==> !test && move && Lost(Board(), nbTileX, nbTileY)
      ensures WellFormed(old(Board())) ==>
                exists r | Pushed(dirCode, old(Board()), r, nbTileX, nbTileY) ::
                  && (move <==> r != old(Board()))
                  && Board() == if test then old(Board()) else if move then Spawned(r, draws) else r
      decreases if test then 0 else 2
    {
      hide Scan.Slid, Scan.HalfSlid, Scan.LineMoves, Spawned, Lost, Pushed, WellFormed;
      ghost var b, z := Board(), ScanOf(dirCode);
      var nb := if nbTileX > nbTileY then nbTileX else nbTileY;
      var valList := new int[nb];
      var newList := new int[nb];
      var dd := dirs[dirCode];
      var t := 0;
      move, lost := false, false;
      z.HalfSlidEnds(b);
      z.Positions(0);
      while t < dd.tEnd && (!test || !move)
        invariant 0 <= t <= z.Count() && Valid()
        invariant Board() == if test then b else z.HalfSlid(b, t)
        invariant move <==> !z.StillUpTo(b, t)
      {
        var changes := SlideOne(dirCode, t, test, valList, newList, b);
        move := move || changes;
        t := t + 1;
      }
      if move {
        StillCount(z, b, t);
      }
      z.SlidChanges(b);
      if !test && move {
        lost := AddTile(draws);
      }
      if WellFormed(b) {
        KeysPush(b, nbTileX, nbTileY, dirCode);
      }
    }

    /** Places a tile on a randomly drawn empty cell, then tries the four keys without moving. */
    method AddTile(draws: Draws) returns (lost: bool)
      requires Valid() && ValidDraws(draws)
      modifies tileValues
      ensures Valid()
      ensures Board() == Spawned(old(Board()), draws)
      ensures lost <==> Lost(Board(), nbTileX, nbTileY)
      decreases 1
    {
      hide CanMove, Spawned;
      PlaceTile(draws);
      var i, canMove := 0, false;
      ghost var b := Board();
      while i < 4 && !canMove
        invariant 0 <= i <= 4 && Valid() && Board() == b
        invariant canMove <==> !LostUpTo(b, nbTileX, nbTileY, i)
      {
        var ignored;
        canMove, ignored := HandleDirKey(i, true, draws);
        i := i + 1;
      }
      if canMove {
        LostUpToFour(b, nbTileX, nbTileY, i);
      }
      lost := !canMove;
    }

    method PlaceTile(draws: Draws)
      requires Valid() && ValidDraws(draws)
      modifies tileValues
      ensures Valid()
      ensures Board() == Spawned(old(Board()), draws)
    {
      ghost var b := Board();
      var nbEmpty := 0;
      for i := 0 to tileValues.Length
        invariant nbEmpty == Empties(b[..i]) && Valid() && Board() == b
      {
        assert b[..i + 1][..i] == b[..i];
        if tileValues[i] == EMPTY {
          nbEmpty := nbEmpty + 1;
        }
      }
      assert b[..|b|] == b;
      var nNew := Rank(nbEmpty, draws.place);
      var valNew := NewExponent(draws);
      PutAtRank(nNew, valNew);
    }

    /** Writes a tile to the empty cell with `nNew` empty cells before it, if there is one. */
    method PutAtRank(nNew: nat, valNew: int)
      requires Valid()
      modifies tileValues
      ensures Valid()
      ensures Board() == if nNew < Empties(old(Board()))
                         then old(Board())[EmptyIndex(old(Board()), nNew) := valNew] else old(Board())
    {
      hide EmptyIndex;
      ghost var b := Board();
      var nbEmpty, i := 0, 0;
      while i < tileValues.Length
        invariant 0 <= i <= tileValues.Length && Valid()
        invariant Board() == b && nbEmpty == Empties(b[..i]) <= nNew
      {
        assert b[..i + 1][..i] == b[..i];
        if tileValues[i] == EMPTY {
          if nbEmpty == nNew {
            EmptyIndexUnique(b, nNew, i);
            tileValues[i] := valNew;
            return;
          } else {
            nbEmpty := nbEmpty + 1;
          }
        }
        i := i + 1;
      }
      assert b[..i] == b;
    }
  }

  lemma {:induction false} StillCount(z: Scan, b: seq<int>, t: nat)
    requires t <= z.Count() && !z.StillUpTo(b, t)
    ensures !z.StillUpTo(b, z.Count())
    decreases z.Count() - t
  {
    hide Scan.LineMoves;
    if t < z.Count() {
      StillCount(z, b, t + 1);
    }
  }

  lemma {:induction false} LostUpToFour(b: seq<int>, w: pos, h: pos, i: nat)
    requires i <= 4 && !LostUpTo(b, w, h, i)
    ensures !LostUpTo(b, w, h, 4)
    decreases 4 - i
  {
    hide CanMove;
    if i < 4 {
      LostUpToFour(b, w, h, i + 1);
    }
  }

  lemma {:induction false} EmptyIndexUnique(b: seq<int>, n: nat, i: nat)
    requires i < |b| && b[i] == EMPTY && Empties(b[..i]) == n
    ensures n < Empties(b) && EmptyIndex(b, n) == i
  {
    var last := |b| - 1;
    if i < last {
      assert b[..last][..i] == b[..i];
      EmptyIndexUnique(b[..last], n, i);
      assert Empties(b[..last]) > n;
    }
  }
}
