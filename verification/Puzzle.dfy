/** The sliding puzzle as the program keeps it: an array of tile pointers, and in each tile the
    place where it stands. */
module Puzzle {
  import opened RowMajor
  import opened Parity
  import opened PuzzleBoard

  datatype Point = Point(x: int, y: int)

  class Tile {
    const originalPosition: Point
    var currentPosition: Point

    constructor (position: Point)
      ensures originalPosition == position && currentPosition == position
    {
      originalPosition := position;
      currentPosition := position;
    }
  }

  function Moved(p: Point, offset: Point): Point {
    Point(p.x + offset.x, p.y + offset.y)
  }

  const OFFSETS: seq<Point> := [Point(0, -1), Point(-1, 0), Point(1, 0), Point(0, 1)]

  class Window {
    const width: pos
    const height: pos
    const current: array<Tile?>
    var tiles: seq<Tile>
    ghost var blank: nat

    predicate InBounds(p: Point) {
      p.x >= 0 && p.x < width && p.y >= 0 && p.y < height
    }

    ghost function CellAt(p: Point): nat
      requires InBounds(p)
    {
      Index(p.x, p.y, width)
    }

    ghost function PointOf(i: nat): Point {
      Point(XOf(i, width), YOf(i, width))
    }

    lemma CellOfPoint(i: nat)
      requires i < Area(width, height)
      ensures InBounds(PointOf(i)) && CellAt(PointOf(i)) == i
    {
      CoordinatesInverse(i, width, height);
    }

    lemma PointOfCell(p: Point)
      requires InBounds(p)
      ensures CellAt(p) < Area(width, height) && PointOf(CellAt(p)) == p
    {
      IndexInverse(p.x, p.y, width, height);
    }

    /** The tile at a place, if any. */
    ghost function TileAt(p: Point): Tile?
      reads current
      requires current.Length == Area(width, height) && InBounds(p)
    {
      RowsIsProduct(p.y, width);
      PointOfCell(p);
      current[p.y * width + p.x]
    }

    /** One tile per home cell but the last, one place without a tile, and pointers that agree. */
    ghost predicate Valid()
      reads this, current, tiles
    {
      && current.Length == Area(width, height) == |tiles| + 1
      && blank < current.Length && current[blank] == null
      && (forall k | 0 <= k < |tiles| :: tiles[k].originalPosition == PointOf(k))
      && (forall t {:trigger Stands(t)} | t in tiles :: Stands(t))
      && (forall p {:trigger Holds(p)} | 0 <= p < current.Length && p != blank :: Holds(p))
    }

    /** The tile is at the place it says. */
    ghost predicate Stands(t: Tile)
      reads this, current, t
      requires current.Length == Area(width, height)
    {
      InBounds(t.currentPosition) && CellAt(t.currentPosition) < current.Length
      && current[CellAt(t.currentPosition)] == t
    }

    /** The place has a tile of the puzzle, which says so. */
    ghost predicate Holds(p: nat)
      reads this, current, tiles
      requires p < current.Length
    {
      var t := current[p];
      && t != null && InBounds(t.originalPosition)
      && CellAt(t.originalPosition) < |tiles| && tiles[CellAt(t.originalPosition)] == t
      && t.currentPosition == PointOf(p)
    }

    /** The home cell of the tile at place `p`, or of the blank. */
    ghost function HomeOf(p: nat): int
      reads this, current, tiles
      requires Valid() && p < current.Length
    {
      if p == blank then current.Length - 1
      else
        assert Holds(p);
        CellAt(current[p].originalPosition)
    }

    ghost function Order(n: nat): (s: seq<int>)
      reads this, current, tiles
      requires Valid() && n <= current.Length
      ensures |s| == n && forall p | 0 <= p < n :: s[p] == HomeOf(p)
    {
      if n == 0 then [] else Order(n - 1) + [HomeOf(n - 1)]
    }

    ghost function BoardOf(): (b: Board)
      reads this, current, tiles
      requires Valid()
      ensures b.w == width && b.h == height && |b.order| == current.Length && b.blank == blank < |b.order|
    {
      Board(width, height, Order(current.Length), blank)
    }

    lemma BoardIsValid()
      requires Valid()
      ensures BoardOf().Valid()
    {
      var order := BoardOf().order;
      forall i, j | 0 <= i < j < |order|
        ensures order[i] != order[j]
      {
        assert i != blank ==> Holds(i);
        assert j != blank ==> Holds(j);
        CellOfPoint(i);
        CellOfPoint(j);
      }
      forall p | 0 <= p < |order|
        ensures 0 <= order[p] < |order|
      {
        assert p != blank ==> Holds(p);
      }
    }

    /** Opens a window with every tile at home. */
    constructor (width: pos, height: pos)
      ensures Valid() && fresh(current) && forall t | t in tiles :: fresh(t)
      ensures BoardOf() == Home(width, height)
      ensures forall p | InBounds(p) ::
                if p == Point(width - 1, height - 1) then TileAt(p) == null
                else TileAt(p) != null && TileAt(p).originalPosition == TileAt(p).currentPosition == p
    {
      this.width, this.height := width, height;
      RowsIsProduct(height, width);
      current := new Tile?[height * width](_ => null);
      tiles := [];
      blank := height * width - 1;
      new;
      AreaPositive(width, height);
      PlaceTiles();
      FilledIsHome();
      FilledPlaces();
    }

    method PlaceTiles()
      requires Filled(0)
      modifies this, current
      ensures Filled(Area(width, height) - 1) && forall t | t in tiles :: fresh(t)
    {
      AreaPositive(width, height);
      var y := 0;
      while y < height
        invariant 0 <= y <= height && forall t | t in tiles :: fresh(t)
        invariant Area(width, height) == current.Length >= 1
        invariant Filled(if y < height then Rows(y, width) else Area(width, height) - 1)
      {
        RowsIncrease(y + 1, height, width);
        assert Rows(y + 1, width) == Rows(y, width) + width;
        var x := 0;
        while x < width
          invariant 0 <= x <= width && forall t | t in tiles :: fresh(t)
          invariant Area(width, height) == current.Length >= 1
          invariant Filled(if y == height - 1 && x == width then Area(width, height) - 1 else Rows(y, width) + x)
        {
          PlaceTile(x, y);
          x := x + 1;
        }
        y := y + 1;
      }
    }

    method PlaceTile(x: nat, y: nat)
      requires x < width && y < height && Filled(Rows(y, width) + x)
      modifies `tiles, current
      ensures forall t | t in tiles :: t in old(tiles) || fresh(t)
      ensures Filled(if y == height - 1 && x == width - 1 then Area(width, height) - 1 else Rows(y, width) + x + 1)
    {
      IndexInverse(x, y, width, height);
      RowsIsProduct(y, width);
      var i := y * width + x;
      assert i == Index(x, y, width) && PointOf(i) == Point(x, y);
      assert Rows(y + 1, width) == Rows(y, width) + width;
      if y < height - 1 {
        RowsIncrease(y + 1, height - 1, width);
      }
      if x == width - 1 && y == height - 1 {
        current[i] := null;
      } else {
        var tile := new Tile(Point(x, y));
        tiles := tiles + [tile];
        current[i] := tile;
      }
    }

    /** The first `n` places hold their own tiles, and the rest hold none. */
    ghost predicate Filled(n: nat)
      reads this, current, tiles
    {
      && current.Length == Area(width, height) && n < current.Length && |tiles| == n && blank == current.Length - 1
      && (forall k | 0 <= k < n ::
            tiles[k].originalPosition == tiles[k].currentPosition == PointOf(k) && current[k] == tiles[k])
      && (forall p | n <= p < current.Length :: current[p] == null)
    }

    lemma FilledIsHome()
      requires Area(width, height) >= 1 && Filled(Area(width, height) - 1)
      ensures Valid() && BoardOf() == Home(width, height)
    {
      forall k | 0 <= k < |tiles|
        ensures Stands(tiles[k]) && Holds(k)
      {
        CellOfPoint(k);
      }
      assert Valid();
      forall p | 0 <= p < current.Length
        ensures HomeOf(p) == p
      {
        CellOfPoint(p);
        assert p != blank ==> Holds(p);
      }
      assert BoardOf().order == Home(width, height).order;
    }

    lemma FilledPlaces()
      requires Area(width, height) >= 1 && Filled(Area(width, height) - 1)
      ensures forall p | InBounds(p) ::
                if p == Point(width - 1, height - 1) then TileAt(p) == null
                else TileAt(p) != null && TileAt(p).originalPosition == TileAt(p).currentPosition == p
    {
      AreaPositive(width, height);
      forall p | InBounds(p)
        ensures if p == Point(width - 1, height - 1) then TileAt(p) == null
                else TileAt(p) != null && TileAt(p).originalPosition == TileAt(p).currentPosition == p
      {
        PointOfCell(p);
        RowsIsProduct(p.y, width);
      }
    }

    /** Only the blank place holds no tile. */
    lemma EmptyPlace(at: Point)
      requires Valid() && InBounds(at)
      ensures at.y * width + at.x == CellAt(at) < current.Length && PointOf(CellAt(at)) == at
      ensures current[CellAt(at)] == null <==> CellAt(at) == blank
    {
      PointOfCell(at);
      RowsIsProduct(at.y, width);
      assert CellAt(at) != blank ==> Holds(CellAt(at));
    }

    /** The `i`th offset leads to place `q` exactly if it points there, which is then beside. */
    lemma OffsetFacts(from: Point, i: nat, q: nat)
      requires InBounds(from) && i < 4 && q < Area(width, height)
      ensures var to := Moved(from, OFFSETS[i]);
              to != from && (to == PointOf(q) ==> InBounds(to) && CellAt(to) == q && Beside(CellAt(from), q, width))
              && (InBounds(to) && CellAt(to) == q ==> to == PointOf(q))
    {
      CellOfPoint(q);
      PointOfCell(from);
      if InBounds(Moved(from, OFFSETS[i])) {
        PointOfCell(Moved(from, OFFSETS[i]));
      }
    }

    lemma NotBeside(from: Point, q: nat)
      requires InBounds(from) && PointOf(CellAt(from)) == from
      requires forall j | 0 <= j < 4 :: Moved(from, OFFSETS[j]) != PointOf(q)
      ensures !Beside(CellAt(from), q, width)
    {
      assert Moved(from, OFFSETS[0]) == Point(from.x, from.y - 1);
      assert Moved(from, OFFSETS[1]) == Point(from.x - 1, from.y);
      assert Moved(from, OFFSETS[2]) == Point(from.x + 1, from.y);
      assert Moved(from, OFFSETS[3]) == Point(from.x, from.y + 1);
    }

    /** Moves a tile to the blank place, and the blank to where it was. */
    method SlideTo(tile: Tile, from: Point, to: Point)
      requires Valid() && tile in tiles && tile.currentPosition == from
      requires InBounds(from) && InBounds(to) && CellAt(to) == blank
      modifies current, tile, `blank
      ensures Valid() && blank == CellAt(from) < current.Length && tile.currentPosition == to
      ensures CellAt(to) < current.Length && current[..] == old(current[..])[CellAt(from) := null][CellAt(to) := tile]
      ensures BoardOf() == Board(width, height, Swap(old(BoardOf()).order, CellAt(from), old(blank)), CellAt(from))
    {
      assert Stands(tile);
      PointOfCell(from);
      PointOfCell(to);
      RowsIsProduct(from.y, width);
      RowsIsProduct(to.y, width);
      var i, j := from.y * width + from.x, to.y * width + to.x;
      assert i == CellAt(from) && j == CellAt(to);
      current[i] := null;
      current[j] := tile;
      tile.currentPosition := to;
      blank := CellAt(from);
      ghost var k :| 0 <= k < |tiles| && tiles[k] == tile;
      SlideFacts(k);
    }

    twostate lemma SlideFacts(k: nat)
      requires Slid(k)
      ensures Valid()
      ensures BoardOf() == Board(width, height, Swap(old(BoardOf()).order, blank, old(blank)), blank)
    {
      SlideStands(k);
      SlideHolds(k);
      SlideValid(k);
      SlideOrder(k);
    }

    twostate lemma SlideValid(k: nat)
      requires Slid(k)
      requires forall t {:trigger Stands(t)} | t in tiles :: Stands(t)
      requires forall p {:trigger Holds(p)} | 0 <= p < current.Length && p != blank :: Holds(p)
      ensures Valid()
    {
      hide Stands, Holds;
    }

    /** The two states around a slide of `tile`. */
    twostate predicate Slid(k: nat)
      reads this, current, tiles
    {
      && old(Valid()) && tiles == old(tiles) && k < |tiles|
      && tiles[k].currentPosition == PointOf(old(blank)) && old(tiles[k].currentPosition) == PointOf(blank)
      && blank < current.Length && InBounds(PointOf(blank)) && CellAt(PointOf(blank)) == blank
      && InBounds(PointOf(old(blank))) && CellAt(PointOf(old(blank))) == old(blank)
      && (forall t | t in tiles && t != tiles[k] :: t.currentPosition == old(t.currentPosition))
      && current[blank] == null && current[old(blank)] == tiles[k]
      && (forall p | 0 <= p < current.Length && p != blank && p != old(blank) :: current[p] == old(current[p]))
    }

    twostate lemma SlideStands(k: nat)
      requires Slid(k)
      ensures forall t {:trigger Stands(t)} | t in tiles :: Stands(t)
    {
      forall t | t in tiles
        ensures Stands(t)
      {
        assert old(Stands(t)) && old(Stands(tiles[k]));
      }
    }

    twostate lemma SlideHolds(k: nat)
      requires Slid(k)
      ensures forall p {:trigger Holds(p)} | 0 <= p < current.Length && p != blank :: Holds(p)
    {
      assert old(Stands(tiles[k]));
      var c := blank;
      assert old(Holds(c));
      forall p | 0 <= p < current.Length && p != blank
        ensures Holds(p)
      {
        if p != old(blank) {
          assert old(Holds(p));
          CellOfPoint(p);
          assert current[p] != tiles[k];
        }
      }
    }

    twostate lemma SlideOrder(k: nat)
      requires Slid(k) && Valid()
      ensures BoardOf() == Board(width, height, Swap(old(BoardOf()).order, blank, old(blank)), blank)
    {
      assert old(Stands(tiles[k]));
      var before, after := old(BoardOf()).order, BoardOf().order;
      forall p | 0 <= p < current.Length
        ensures after[p] == Swap(before, blank, old(blank))[p]
      {
        assert after[p] == HomeOf(p) && before[p] == old(HomeOf(p));
        assert p != blank ==> Holds(p);
        assert p != old(blank) ==> old(Holds(p));
      }
    }

    /** Tries one of the places beside a tile: slides the tile there if the place is the blank. */
    method TrySlide(tile: Tile, from: Point, to: Point) returns (slid: bool)
      requires Valid() && tile in tiles && InBounds(from) && to != from
      requires CellAt(from) < current.Length && PointOf(CellAt(from)) == from
      requires tile.currentPosition == from || blank == CellAt(from)
      modifies current, tile, `blank
      ensures Valid() && slid == (InBounds(to) && CellAt(to) == old(blank))
      ensures slid ==> old(tile.currentPosition) == from && blank == CellAt(from) && tile.currentPosition == to
      ensures slid ==> CellAt(to) < current.Length
                       && current[..] == old(current[..])[CellAt(from) := null][CellAt(to) := tile]
      ensures !slid ==> current[..] == old(current[..])
      ensures slid ==> BoardOf() == Board(width, height, Swap(old(BoardOf()).order, CellAt(from), old(blank)), CellAt(from))
      ensures !slid ==> BoardOf() == old(BoardOf()) && blank == old(blank) && tile.currentPosition == old(tile.currentPosition)
    {
      hide Order, Index, XOf, YOf, Area, Stands, Holds;
      slid := false;
      if InBounds(to) {
        EmptyPlace(to);
        if current[to.y * width + to.x] == null {
          SlideTo(tile, from, to);
          slid := true;
        }
      }
    }

    /** Handles a press on a tile: tries the four places beside it, and slides it to the blank if one of them
        is the blank. The tile moves exactly if the place without a tile is one step away from it, across or
        down; then the two exchange their places, and every other tile stays. */
    method HandleTilePress(tile: Tile)
      requires Valid() && tile in tiles
      modifies current, tile, `blank
      ensures Valid()
      ensures InBounds(old(tile.currentPosition)) && old(CellAt(tile.currentPosition)) < current.Length
      ensures BoardOf() == old(BoardOf()).Pressed(old(CellAt(tile.currentPosition)))
      ensures var p := old(tile.currentPosition);
              forall q | InBounds(q) && old(TileAt(q)) == null ::
                if Distance(p.x, q.x) + Distance(p.y, q.y) == 1
                then tile.currentPosition == q && TileAt(q) == tile && TileAt(p) == null
                     && forall o | InBounds(o) && o != p && o != q :: TileAt(o) == old(TileAt(o))
                else tile.currentPosition == p && forall o | InBounds(o) :: TileAt(o) == old(TileAt(o))
    {
      hide Order, Index, XOf, YOf, Area, Moved, Beside, Valid, TileAt;
      StandsInBounds(tile);
      var from := tile.currentPosition;
      ghost var c, b, moved, was := CellAt(from), BoardOf(), false, current[..];
      BlankPlace();
      TilesByCell();
      for i := 0 to 4
        invariant Valid() && c < current.Length && b.blank < |was| == current.Length
        invariant moved ==> blank == c && Beside(c, b.blank, width) && BoardOf() == b.Pressed(c)
        invariant moved ==> tile.currentPosition == PointOf(b.blank) && current[..] == was[c := null][b.blank := tile]
        invariant !moved ==> BoardOf() == b && blank == b.blank && tile.currentPosition == from && current[..] == was
        invariant !moved ==> forall j | 0 <= j < i :: Moved(from, OFFSETS[j]) != PointOf(b.blank)
      {
        OffsetFacts(from, i, b.blank);
        OffsetFacts(from, i, blank);
        NotItself(from, i);
        var slid := TrySlide(tile, from, Moved(from, OFFSETS[i]));
        moved := moved || slid;
      }
      if !moved {
        NotBeside(from, b.blank);
      }
      PlacesAfter(tile, from, b.blank, was, moved);
    }

    /** The blank is the only place without a tile. */
    lemma BlankPlace()
      requires Valid()
      ensures forall q | InBounds(q) :: TileAt(q) == null <==> q == PointOf(blank)
    {
      forall q | InBounds(q)
        ensures TileAt(q) == null <==> q == PointOf(blank)
      {
        EmptyPlace(q);
        CellOfPoint(blank);
      }
    }

    lemma TilesByCell()
      requires current.Length == Area(width, height)
      ensures forall o {:trigger TileAt(o)} | InBounds(o) :: CellAt(o) < current.Length && TileAt(o) == current[..][CellAt(o)]
    {
      forall o | InBounds(o)
        ensures CellAt(o) < current.Length && TileAt(o) == current[..][CellAt(o)]
      {
        PointOfCell(o);
        RowsIsProduct(o.y, width);
      }
    }

    /** The tiles by places, before and after a press. */
    lemma PlacesAfter(tile: Tile, from: Point, was: nat, before: seq<Tile?>, moved: bool)
      requires current.Length == Area(width, height) == |before| && InBounds(from) && was < |before|
      requires CellAt(from) < |before| && moved == Beside(CellAt(from), was, width)
      requires current[..] == if moved then before[CellAt(from) := null][was := tile] else before
      ensures var p, q := from, PointOf(was);
              && InBounds(q) && (moved <==> Distance(p.x, q.x) + Distance(p.y, q.y) == 1)
              && (moved ==> TileAt(q) == tile && TileAt(p) == null)
              && forall o | InBounds(o) && (moved ==> o != p && o != q) ::
                   CellAt(o) < |before| && TileAt(o) == before[CellAt(o)]
    {
      hide Area;
      CellOfPoint(was);
      PointOfCell(from);
      BesideExactly(CellAt(from), was, width);
      TilesByCell();
      forall o | InBounds(o)
        ensures CellAt(o) < |before| && PointOf(CellAt(o)) == o
      {
        PointOfCell(o);
      }
    }

    lemma StandsInBounds(tile: Tile)
      requires Valid() && tile in tiles
      ensures var p := tile.currentPosition;
              InBounds(p) && CellAt(p) < current.Length == Area(width, height) && PointOf(CellAt(p)) == p
      ensures blank < current.Length
    {
      assert Stands(tile);
      PointOfCell(tile.currentPosition);
    }

    lemma NotItself(from: Point, i: nat)
      requires InBounds(from) && i < 4
      ensures CellAt(from) < Area(width, height) && PointOf(CellAt(from)) == from
      ensures InBounds(Moved(from, OFFSETS[i])) ==> CellAt(Moved(from, OFFSETS[i])) != CellAt(from)
    {
      PointOfCell(from);
      if InBounds(Moved(from, OFFSETS[i])) {
        PointOfCell(Moved(from, OFFSETS[i]));
      }
    }
  }
}
