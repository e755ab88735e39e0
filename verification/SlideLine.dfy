/** One line of a 2048 board: sliding it, merging it, and what both keep. */
module SlideLine {
  import opened Powers

  /** The value of a cell without a tile. Other cells hold the exponent of their tile. */
  const EMPTY: int := -1

  ghost predicate WellFormed(s: seq<int>) {
    forall i | 0 <= i < |s| :: s[i] == EMPTY || s[i] >= 1
  }

  ghost predicate Tiles(s: seq<int>) {
    forall i | 0 <= i < |s| :: s[i] >= 1
  }

  /** The number shown on a tile, 0 for an empty cell. */
  function Weight(v: int): nat {
    if v < 0 then 0 else Pow2(v)
  }

  function Total(s: seq<int>): nat {
    if s == [] then 0 else Total(s[..|s| - 1]) + Weight(s[|s| - 1])
  }

  /** The tiles of a line in scan order, without the empty cells. */
  function Pack(line: seq<int>): (r: seq<int>)
    ensures |r| <= |line|
  {
    if line == [] then []
    else
      var last := line[|line| - 1];
      Pack(line[..|line| - 1]) + if last == EMPTY then [] else [last]
  }

  /** Greedy merging of equal neighbours, from the side the tiles slide to. */
  function Merge(vals: seq<int>): (r: seq<int>)
    ensures |r| <= |vals|
  {
    if vals == [] then []
    else if |vals| >= 2 && vals[0] == vals[1] then [vals[0] + 1] + Merge(vals[2..])
    else [vals[0]] + Merge(vals[1..])
  }

  function Padded(vals: seq<int>, n: nat): (r: seq<int>)
    requires |vals| <= n
    ensures |r| == n
  {
    seq(n, k requires 0 <= k < n => if k < |vals| then vals[k] else EMPTY)
  }

  function Slide(line: seq<int>): (r: seq<int>)
    ensures |r| == |line|
  {
    Padded(Merge(Pack(line)), |line|)
  }

  lemma MergeAt(vals: seq<int>, q: nat, done: seq<int>)
    requires q < |vals|
    ensures q + 1 < |vals| && vals[q] == vals[q + 1] ==>
              done + Merge(vals[q..]) == done + [vals[q] + 1] + Merge(vals[q + 2..])
    ensures !(q + 1 < |vals| && vals[q] == vals[q + 1]) ==>
              done + Merge(vals[q..]) == done + [vals[q]] + Merge(vals[q + 1..])
  {
    assert vals[q..][1..] == vals[q + 1..];
    if q + 1 < |vals| {
      assert vals[q..][2..] == vals[q + 2..];
    }
  }

  // ----- totals -----

  lemma {:induction false} TotalConcat(a: seq<int>, b: seq<int>)
    ensures Total(a + b) == Total(a) + Total(b)
  {
    if b == [] {
      assert a + b == a;
    } else {
      assert (a + b)[..|a + b| - 1] == a + b[..|b| - 1];
      TotalConcat(a, b[..|b| - 1]);
    }
  }

  lemma {:induction false} TotalUpdate(s: seq<int>, i: nat, v: int)
    requires i < |s|
    ensures Total(s[i := v]) == Total(s) - Weight(s[i]) + Weight(v)
  {
    var n := |s| - 1;
    if i == n {
      assert s[i := v][..n] == s[..n];
    } else {
      assert s[i := v][..n] == s[..n][i := v];
      TotalUpdate(s[..n], i, v);
    }
  }

  lemma {:induction false} TotalEmpty(s: seq<int>)
    requires forall i | 0 <= i < |s| :: s[i] == EMPTY
    ensures Total(s) == 0
  {
    if s != [] {
      TotalEmpty(s[..|s| - 1]);
    }
  }

  lemma {:induction false} TotalAtLeast(s: seq<int>, i: nat)
    requires i < |s|
    ensures Total(s) >= Weight(s[i])
  {
    if i < |s| - 1 {
      TotalAtLeast(s[..|s| - 1], i);
    }
  }

  lemma {:induction false} PackKeepsTotal(line: seq<int>)
    requires WellFormed(line)
    ensures Total(Pack(line)) == Total(line)
    ensures Tiles(Pack(line))
  {
    if line != [] {
      var init, last := line[..|line| - 1], line[|line| - 1];
      PackKeepsTotal(init);
      TotalConcat(Pack(init), if last == EMPTY then [] else [last]);
    }
  }

  lemma {:induction false} MergeKeepsTotal(vals: seq<int>)
    requires Tiles(vals)
    ensures Total(Merge(vals)) == Total(vals)
    ensures Tiles(Merge(vals))
  {
    hide Total, Weight;
    if vals == [] {
    } else if |vals| >= 2 && vals[0] == vals[1] {
      var v := vals[0];
      assert vals == [v, v] + vals[2..];
      TotalConcat([v, v], vals[2..]);
      TotalConcat([v + 1], Merge(vals[2..]));
      TotalOfPair(v);
      MergeKeepsTotal(vals[2..]);
    } else {
      assert vals == [vals[0]] + vals[1..];
      TotalConcat([vals[0]], vals[1..]);
      TotalConcat([vals[0]], Merge(vals[1..]));
      MergeKeepsTotal(vals[1..]);
    }
  }

  lemma TotalOfPair(v: int)
    requires v >= 0
    ensures Total([v, v]) == Total([v + 1])
  {
    assert [v, v][..1] == [v] && [v][..0] == [] && [v + 1][..0] == [];
  }

  /** Sliding a line keeps the sum of its tiles. */
  lemma SlideKeepsTotal(line: seq<int>)
    requires WellFormed(line)
    ensures Total(Slide(line)) == Total(line)
    ensures WellFormed(Slide(line))
  {
    PackKeepsTotal(line);
    MergeKeepsTotal(Pack(line));
    var m := Merge(Pack(line));
    assert Slide(line) == m + Slide(line)[|m|..];
    TotalConcat(m, Slide(line)[|m|..]);
    TotalEmpty(Slide(line)[|m|..]);
  }

  // ----- when a line stays as it is -----

  ghost predicate Full(line: seq<int>) {
    forall i | 0 <= i < |line| :: line[i] != EMPTY
  }

  /** A tile stands behind an empty cell: the test `space_armed` makes of the scan. */
  ghost predicate HasGap(line: seq<int>) {
    exists i, j | 0 <= i < j < |line| :: line[i] == EMPTY && line[j] != EMPTY
  }

  ghost predicate HasPair(vals: seq<int>) {
    exists i | 0 <= i < |vals| - 1 :: vals[i] == vals[i + 1]
  }

  lemma {:induction false} PackOfFull(line: seq<int>)
    requires Full(line)
    ensures Pack(line) == line
  {
    if line != [] {
      PackOfFull(line[..|line| - 1]);
    }
  }

  lemma {:induction false} PackIsFull(line: seq<int>)
    ensures Full(Pack(line))
    ensures |Pack(line)| == |line| <==> Full(line)
  {
    if line != [] {
      PackIsFull(line[..|line| - 1]);
      assert Full(line) ==> Full(line[..|line| - 1]);
      assert Full(line[..|line| - 1]) && line[|line| - 1] != EMPTY ==> Full(line);
    }
  }

  /** Without a gap the packed tiles are the first cells of the line. */
  lemma {:induction false} PackWithoutGap(line: seq<int>)
    ensures HasGap(line) <==> Padded(Pack(line), |line|) != line
  {
    var p := Pack(line);
    PackIsFull(line);
    if line != [] {
      var n := |line| - 1;
      var init := line[..n];
      PackWithoutGap(init);
      PackIsFull(init);
      var q := Padded(Pack(init), n);
      if HasGap(init) {
        var i, j :| 0 <= i < j < n && init[i] == EMPTY && init[j] != EMPTY;
        assert line[i] == EMPTY && line[j] != EMPTY;
        var k :| 0 <= k < n && q[k] != init[k];
        if k < |Pack(init)| {
          assert Padded(p, |line|)[k] == q[k];
        } else if line[n] == EMPTY || k > |Pack(init)| {
          assert Padded(p, |line|)[k] == EMPTY;
        } else {
          // the new tile lands at index |Pack(init)|, which is below n
          assert Padded(p, |line|)[n] == EMPTY;
        }
      } else {
        assert forall k | 0 <= k < n :: init[k] == q[k];
        if line[n] != EMPTY {
          if |Pack(init)| < n {
            assert line[|Pack(init)|] == q[|Pack(init)|] == EMPTY;
            assert HasGap(line);
            assert Padded(p, |line|)[n] == EMPTY;
          } else {
            assert forall k | 0 <= k < n :: init[k] != EMPTY;
            assert Full(line);
            PackOfFull(line);
          }
        } else {
          assert Padded(p, |line|) == line;
        }
      }
    }
  }

  lemma {:induction false} MergeOfPairless(vals: seq<int>)
    ensures HasPair(vals) <==> |Merge(vals)| < |vals|
    ensures !HasPair(vals) ==> Merge(vals) == vals
  {
    if vals == [] {
    } else if |vals| >= 2 && vals[0] == vals[1] {
      assert HasPair(vals);
    } else {
      var rest := vals[1..];
      MergeOfPairless(rest);
      if HasPair(rest) {
        var i :| 0 <= i < |rest| - 1 && rest[i] == rest[i + 1];
        assert vals[i + 1] == vals[i + 1 + 1];
      }
      if HasPair(vals) {
        var i :| 0 <= i < |vals| - 1 && vals[i] == vals[i + 1];
        assert rest[i - 1] == rest[i - 1 + 1];
      }
    }
  }

  /** A line changes exactly when a tile stands behind an empty cell or two tiles merge. */
  lemma SlideChanges(line: seq<int>)
    ensures Slide(line) != line <==> HasGap(line) || HasPair(Pack(line))
  {
    var p := Pack(line);
    MergeOfPairless(p);
    PackWithoutGap(line);
    PackIsFull(line);
    if HasPair(p) {
      var k := |p| - 1;
      assert Slide(line)[k] == EMPTY;
      if Slide(line) == line {
        // then `line` has an empty cell at k and at most k tiles, all in front
        assert forall i | k <= i < |line| :: line[i] == EMPTY;
        PackLength(line, k);
      }
    } else {
      assert Slide(line) == Padded(p, |line|);
    }
  }

  lemma {:induction false} PackLength(line: seq<int>, k: nat)
    requires k <= |line|
    requires forall i | k <= i < |line| :: line[i] == EMPTY
    ensures |Pack(line)| <= k
  {
    if k < |line| {
      PackLength(line[..|line| - 1], k);
    }
  }

  /** A line that changes has an empty cell afterwards. */
  lemma ChangedLineHasRoom(line: seq<int>)
    requires Slide(line) != line
    ensures exists k | 0 <= k < |line| :: Slide(line)[k] == EMPTY
  {
    var p := Pack(line);
    PackIsFull(line);
    MergeOfPairless(p);
    if |Merge(p)| == |line| {
      PackOfFull(line);
      assert false;
    }
    assert Slide(line)[|line| - 1] == EMPTY;
  }

  // ----- what merging means -----

  /** `sizes` cuts the tiles into consecutive blocks of one or two tiles. */
  ghost predicate Cuts(vals: seq<int>, sizes: seq<nat>) {
    if sizes == [] then vals == []
    else sizes[0] in {1, 2} && sizes[0] <= |vals| && Cuts(vals[sizes[0]..], sizes[1..])
  }

  /** Each block of two holds equal tiles and becomes one tile of the next exponent; each
      block of one keeps its tile, and differs from the tile behind it. */
  ghost predicate MergedBy(vals: seq<int>, sizes: seq<nat>, r: seq<int>)
    requires Cuts(vals, sizes)
  {
    if sizes == [] then r == []
    else
      && r != []
      && (if sizes[0] == 2 then vals[0] == vals[1] && r[0] == vals[0] + 1
          else r[0] == vals[0] && (|vals| >= 2 ==> vals[0] != vals[1]))
      && MergedBy(vals[sizes[0]..], sizes[1..], r[1..])
  }

  /** Merging keeps the order and merges no tile twice: the result is one value per block. */
  lemma {:induction false} MergeCuts(vals: seq<int>) returns (sizes: seq<nat>)
    ensures Cuts(vals, sizes) && MergedBy(vals, sizes, Merge(vals))
    ensures |sizes| == |Merge(vals)|
  {
    if vals == [] {
      sizes := [];
    } else if |vals| >= 2 && vals[0] == vals[1] {
      var rest := MergeCuts(vals[2..]);
      sizes := [2] + rest;
      assert sizes[1..] == rest && Merge(vals)[1..] == Merge(vals[2..]);
    } else {
      var rest := MergeCuts(vals[1..]);
      sizes := [1] + rest;
      assert sizes[1..] == rest && Merge(vals)[1..] == Merge(vals[1..]);
    }
  }

  /** The cutting rule leaves no choice, so it defines `Merge`. */
  lemma {:induction false} MergeIsTheOnlyCut(vals: seq<int>, sizes: seq<nat>, r: seq<int>)
    requires Cuts(vals, sizes) && MergedBy(vals, sizes, r)
    ensures r == Merge(vals)
  {
    if sizes != [] {
      MergeIsTheOnlyCut(vals[sizes[0]..], sizes[1..], r[1..]);
      assert r == [r[0]] + r[1..];
    }
  }
}
