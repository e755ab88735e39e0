/** Row-major board indices of any width, by repeated addition so that they stay linear. */
module RowMajor {

  type pos = n: int | n >= 1 witness 1

  /** The number of cells in `y` rows of width `w`. */
  function Rows(y: nat, w: nat): nat {
    if y == 0 then 0 else Rows(y - 1, w) + w
  }

  lemma {:induction false} RowsIsProduct(y: nat, w: nat)
    ensures Rows(y, w) == y * w
  {
    if y > 0 {
      RowsIsProduct(y - 1, w);
      assert y * w == (y - 1) * w + w;
    }
  }

  function Area(w: pos, h: pos): nat {
    Rows(h, w)
  }

  function Index(x: nat, y: nat, w: nat): nat {
    Rows(y, w) + x
  }

  function YOf(i: nat, w: pos): nat {
    if i < w then 0 else YOf(i - w, w) + 1
  }

  function XOf(i: nat, w: pos): (x: nat)
    ensures x < w
  {
    if i < w then i else XOf(i - w, w)
  }

  lemma {:induction false} RowsIncrease(a: nat, b: nat, w: nat)
    requires a <= b
    ensures Rows(a, w) <= Rows(b, w)
  {
    if a < b {
      RowsIncrease(a, b - 1, w);
    }
  }

  lemma {:induction false} IndexInverse(x: nat, y: nat, w: pos, h: pos)
    requires x < w && y < h
    ensures Index(x, y, w) < Area(w, h)
    ensures XOf(Index(x, y, w), w) == x && YOf(Index(x, y, w), w) == y
  {
    RowsIncrease(y + 1, h, w);
    if y > 0 {
      IndexInverse(x, y - 1, w, h);
    }
  }

  lemma {:induction false} CoordinatesInverse(i: nat, w: pos, h: nat)
    requires i < Rows(h, w)
    ensures YOf(i, w) < h && Index(XOf(i, w), YOf(i, w), w) == i
  {
    if i >= w {
      CoordinatesInverse(i - w, w, h - 1);
    }
  }

  /** The coordinates are what C's division and remainder by the width give. */
  lemma CoordinatesAreDivMod(i: nat, w: pos)
    ensures XOf(i, w) == i % w && YOf(i, w) == i / w
  {
    hide Rows;
    IndexOfCoordinates(i, w);
    RowsOfDiv(i, w);
    SameRow(YOf(i, w), XOf(i, w), i / w, i % w, w);
  }

  lemma RowsOfDiv(i: nat, w: pos)
    ensures i == Rows(i / w, w) + i % w
  {
    hide Rows;
    RowsIsProduct(i / w, w);
    assert i == w * (i / w) + i % w;
  }

  lemma SameRow(y: nat, x: nat, q: nat, r: nat, w: pos)
    requires x < w && r < w && Rows(y, w) + x == Rows(q, w) + r
    ensures y == q && x == r
  {
    IndexInverse(x, y, w, y + 1);
    IndexInverse(r, q, w, q + 1);
  }

  lemma {:induction false} IndexOfCoordinates(i: nat, w: pos)
    ensures Index(XOf(i, w), YOf(i, w), w) == i
  {
    if i >= w {
      IndexOfCoordinates(i - w, w);
    }
  }
}
