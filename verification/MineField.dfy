/** Mine fields, flood regions and whole Minesweeper games, on sets of cell indices. */
module MineField {
  import opened RowMajor

  /** The cells 0 .. n - 1. */
  ghost function Cells(n: nat): (s: set<nat>)
    ensures |s| == n
    ensures forall i: nat :: i in s <==> i < n
  {
    if n == 0 then {} else Cells(n - 1) + {n - 1}
  }

  predicate Within1(a: int, b: int) {
    -1 <= a - b <= 1
  }

  /** A board of `w` by `h` cells with mines under some of them. */
  datatype Field = Field(w: pos, h: pos, mines: set<nat>) {

    function Size(): nat {
      Area(w, h)
    }

    ghost function All(): set<nat> {
      Cells(Size())
    }

    ghost predicate Valid() {
      mines <= All()
    }

    /** Two different cells that touch, by a side or by a corner. */
    predicate Near(i: nat, j: nat) {
      i != j && i < Size() && j < Size() && Within1(XOf(i, w), XOf(j, w)) && Within1(YOf(i, w), YOf(j, w))
    }

    /** Touching, by columns and rows: at most one column and one row apart. */
    lemma NearExactly(i: nat, j: nat)
      requires i < Size() && j < Size()
      ensures Near(i, j) <==> i != j && -1 <= i % w - j % w <= 1 && -1 <= i / w - j / w <= 1
    {
      CoordinatesAreDivMod(i, w);
      CoordinatesAreDivMod(j, w);
    }

    ghost function MinesAround(i: nat): set<nat> {
      set m | m in mines && Near(i, m)
    }

    ghost function Count(i: nat): nat {
      |MinesAround(i)|
    }

    /** The count of a cell is the number of mined cells that touch it. */
    lemma CountExactly(i: nat)
      requires Valid() && i < Size()
      ensures Count(i) == |set m: nat | m in mines && m != i && -1 <= i % w - m % w <= 1 && -1 <= i / w - m / w <= 1|
    {
      forall m | m in mines
        ensures Near(i, m) <==> m != i && -1 <= i % w - m % w <= 1 && -1 <= i / w - m / w <= 1
      {
        NearExactly(i, m);
      }
      assert MinesAround(i) == set m: nat | m in mines && m != i && -1 <= i % w - m % w <= 1 && -1 <= i / w - m / w <= 1;
    }

    ghost predicate Clear(i: nat) {
      Count(i) == 0
    }

    lemma ClearHasNoMine(i: nat, j: nat)
      requires Clear(i) && Near(i, j)
      ensures j !in mines
    {
      assert MinesAround(i) == {};
      assert j in MinesAround(i) <==> j in mines;
    }

    // ----- flood regions -----

    /** A walk between touching cells that avoids `blocked` and goes on only from clear cells. */
    ghost predicate Walk(blocked: set<nat>, p: seq<nat>) {
      && |p| >= 1
      && (forall k | 0 <= k < |p| :: p[k] < Size() && p[k] !in blocked)
      && (forall k | 0 <= k < |p| - 1 :: Clear(p[k]) && Near(p[k], p[k + 1]))
    }

    ghost predicate Reaches(blocked: set<nat>, i: nat, j: nat) {
      exists p :: Walk(blocked, p) && p[0] == i && p[|p| - 1] == j
    }

    /** The cells a click on `i` can reach. */
    ghost function Flood(blocked: set<nat>, i: nat): set<nat> {
      set j | j in All() && Reaches(blocked, i, j)
    }

    lemma FloodStart(blocked: set<nat>, i: nat)
      requires i < Size() && i !in blocked
      ensures i in Flood(blocked, i)
    {
      var p := [i];
      assert Walk(blocked, p) && p[0] == i && p[|p| - 1] == i;
    }

    /** A flood goes on from its clear cells to every unblocked neighbour. */
    lemma FloodExtends(blocked: set<nat>, i: nat, j: nat, k: nat)
      requires j in Flood(blocked, i) && Clear(j) && Near(j, k) && k !in blocked
      ensures k in Flood(blocked, i)
    {
      var p :| Walk(blocked, p) && p[0] == i && p[|p| - 1] == j;
      var q := p + [k];
      assert q[0] == i && q[|q| - 1] == k;
      forall m | 0 <= m < |q| - 1
        ensures Clear(q[m]) && Near(q[m], q[m + 1])
      {
        if m < |p| - 1 {
          assert q[m] == p[m] && q[m + 1] == p[m + 1];
        }
      }
      assert Walk(blocked, q);
    }

    /** What a neighbour floods under more blocking, a clear cell floods too. */
    lemma FloodPrepends(blocked: set<nat>, more: set<nat>, i: nat, k: nat, j: nat)
      requires i < Size() && i !in blocked && Clear(i) && Near(i, k)
      requires blocked <= more && j in Flood(more, k)
      ensures j in Flood(blocked, i)
    {
      var p :| Walk(more, p) && p[0] == k && p[|p| - 1] == j;
      var q := [i] + p;
      assert q[0] == i && q[|q| - 1] == j;
      forall m | 0 <= m < |q| - 1
        ensures Clear(q[m]) && Near(q[m], q[m + 1])
      {
        if m > 0 {
          assert q[m] == p[m - 1] && q[m + 1] == p[m];
        }
      }
      assert Walk(blocked, q);
    }

    /** A set that starts at `i` and is closed under going on contains the whole flood. */
    lemma {:induction false} FloodIsLeast(blocked: set<nat>, i: nat, s: set<nat>, p: seq<nat>)
      requires i in s
      requires forall j, k | j in s && Clear(j) && Near(j, k) && k !in blocked :: k in s
      requires Walk(blocked, p) && p[0] == i
      ensures p[|p| - 1] in s
    {
      if |p| > 1 {
        var q := p[..|p| - 1];
        forall m | 0 <= m < |q| - 1
          ensures Clear(q[m]) && Near(q[m], q[m + 1])
        {
          assert Near(p[m], p[m + 1]);
        }
        FloodIsLeast(blocked, i, s, q);
        assert Clear(p[|p| - 2]) && Near(p[|p| - 2], p[|p| - 2 + 1]);
      }
    }

    /** No flood that starts on a safe cell reaches a mine. */
    lemma FloodIsSafe(blocked: set<nat>, i: nat, j: nat)
      requires i !in mines && j in Flood(blocked, i)
      ensures j !in mines && j !in blocked && j < Size()
    {
      var p :| Walk(blocked, p) && p[0] == i && p[|p| - 1] == j;
      if |p| > 1 {
        assert Clear(p[|p| - 2]) && Near(p[|p| - 2], p[|p| - 2 + 1]);
        ClearHasNoMine(p[|p| - 2], j);
      }
    }

    // ----- the exploration, step by step -----

    /** Mid-exploration of the clear cell `i`: everything revealed so far belongs to its flood,
        and the cells revealed so far are explored, except `i` itself. */
    ghost predicate Exploring(flags: set<nat>, before: set<nat>, i: nat, now: set<nat>) {
      && before + {i} <= now <= All()
      && now - before <= Flood(before + flags, i)
      && (forall j, k | j in now - before && j != i && Clear(j) && Near(j, k) && k !in flags :: k in now)
    }

    lemma ExploringStarts(flags: set<nat>, before: set<nat>, i: nat)
      requires before <= All() && i < Size() && i !in before && i !in flags
      ensures Exploring(flags, before, i, before + {i})
    {
      FloodStart(before + flags, i);
    }

    /** Exploring a hidden neighbour keeps the exploration going. */
    lemma ExploringStep(flags: set<nat>, before: set<nat>, i: nat, now: set<nat>, k: nat)
      requires Exploring(flags, before, i, now) && i !in before && i !in flags
      requires Clear(i) && Near(i, k) && k !in now && k !in flags
      ensures Exploring(flags, before, i, now + Flood(now + flags, k))
      ensures k in Flood(now + flags, k)
    {
      var more := Flood(now + flags, k);
      FloodStart(now + flags, k);
      forall j | j in more
        ensures j in Flood(before + flags, i)
      {
        FloodPrepends(before + flags, now + flags, i, k, j);
      }
      forall j, m | j in now + more - before && j != i && Clear(j) && Near(j, m) && m !in flags
        ensures m in now + more
      {
        if j in more && m !in now {
          FloodExtends(now + flags, k, j, m);
        }
      }
    }

    /** Once the neighbours of `i` are explored too, exactly the flood is revealed. */
    lemma ExploringEnds(flags: set<nat>, before: set<nat>, i: nat, now: set<nat>)
      requires Exploring(flags, before, i, now) && i !in before
      requires Clear(i) ==> forall k | Near(i, k) && k !in flags :: k in now
      ensures now == before + Flood(before + flags, i)
    {
      forall j | j in Flood(before + flags, i)
        ensures j in now
      {
        var p :| Walk(before + flags, p) && p[0] == i && p[|p| - 1] == j;
        var s := now - before;
        forall a, b | a in s && Clear(a) && Near(a, b) && b !in before + flags
          ensures b in s
        {
        }
        FloodIsLeast(before + flags, i, s, p);
      }
    }

    /** A cell that touches a mine floods itself alone. */
    lemma FloodOfUnclear(blocked: set<nat>, i: nat)
      requires i < Size() && i !in blocked && !Clear(i)
      ensures Flood(blocked, i) == {i}
    {
      FloodStart(blocked, i);
      forall j | j in Flood(blocked, i)
        ensures j == i
      {
        var p :| Walk(blocked, p) && p[0] == i && p[|p| - 1] == j;
        if |p| > 1 {
          assert false;
        }
      }
    }

    // ----- floods on explored boards -----

    /** Every clear revealed cell has all its neighbours revealed. */
    ghost predicate Explored(revealed: set<nat>) {
      forall j, k | j in revealed && Clear(j) && Near(j, k) :: k in revealed
    }

    /** On an explored board, avoiding the revealed cells loses nothing. */
    lemma FloodOnExplored(revealed: set<nat>, i: nat)
      requires Explored(revealed) && i < Size() && i !in revealed
      ensures revealed + Flood(revealed, i) == revealed + Flood({}, i)
      ensures Explored(revealed + Flood({}, i))
    {
      var s := revealed + Flood(revealed, i);
      FloodStart(revealed, i);
      forall a, b | a in s && Clear(a) && Near(a, b)
        ensures b in s
      {
        if a !in revealed && b !in revealed {
          FloodExtends(revealed, i, a, b);
        }
      }
      forall j | j in Flood({}, i)
        ensures j in s
      {
        var p :| Walk({}, p) && p[0] == i && p[|p| - 1] == j;
        FloodIsLeast({}, i, s, p);
      }
      forall j | j in Flood(revealed, i)
        ensures j in Flood({}, i)
      {
        var p :| Walk(revealed, p) && p[0] == i && p[|p| - 1] == j;
        assert Walk({}, p);
      }
    }

    /** A revealed cell's flood is already revealed. */
    lemma FloodInsideExplored(revealed: set<nat>, i: nat)
      requires Explored(revealed) && i in revealed
      ensures Flood({}, i) <= revealed
    {
      forall j | j in Flood({}, i)
        ensures j in revealed
      {
        var p :| Walk({}, p) && p[0] == i && p[|p| - 1] == j;
        FloodIsLeast({}, i, revealed, p);
      }
    }
  }
}
