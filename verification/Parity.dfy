/** Inversions of a sequence, and what exchanging two entries does to their parity. */
module Parity {

  predicate Odd(n: nat) {
    n % 2 == 1
  }

  /** How many entries are below `x`. */
  function CountBelow(x: int, s: seq<int>): nat {
    if s == [] then 0 else (if s[0] < x then 1 else 0) + CountBelow(x, s[1..])
  }

  /** How many pairs of entries are out of order. */
  function Inversions(s: seq<int>): nat {
    if s == [] then 0 else CountBelow(s[0], s[1..]) + Inversions(s[1..])
  }

  ghost predicate Distinct(s: seq<int>) {
    forall i, j | 0 <= i < j < |s| :: s[i] != s[j]
  }

  function Swap(s: seq<int>, i: nat, j: nat): (r: seq<int>)
    requires i < |s| && j < |s|
    ensures |r| == |s|
  {
    s[i := s[j]][j := s[i]]
  }

  lemma SwapDistinct(s: seq<int>, i: nat, j: nat)
    requires i < |s| && j < |s| && Distinct(s)
    ensures Distinct(Swap(s, i, j))
  {
  }

  lemma {:induction false} CountBelowConcat(x: int, a: seq<int>, b: seq<int>)
    ensures CountBelow(x, a + b) == CountBelow(x, a) + CountBelow(x, b)
  {
    if a == [] {
      assert a + b == b;
    } else {
      assert (a + b)[1..] == a[1..] + b;
      CountBelowConcat(x, a[1..], b);
    }
  }

  /** Behind equal prefixes, sequences with the same counts differ by the same inversions. */
  lemma {:induction false} InversionsBehind(a: seq<int>, t: seq<int>, u: seq<int>)
    requires forall x :: CountBelow(x, t) == CountBelow(x, u)
    ensures Inversions(a + t) + Inversions(u) == Inversions(a + u) + Inversions(t)
  {
    if a == [] {
      assert a + t == t && a + u == u;
    } else {
      assert (a + t)[1..] == a[1..] + t && (a + u)[1..] == a[1..] + u;
      CountBelowConcat(a[0], a[1..], t);
      CountBelowConcat(a[0], a[1..], u);
      InversionsBehind(a[1..], t, u);
    }
  }

  /** Exchanging neighbours changes the number of inversions by one. */
  lemma SwapNeighbours(s: seq<int>, i: nat)
    requires i + 1 < |s| && s[i] != s[i + 1]
    ensures Odd(Inversions(Swap(s, i, i + 1))) != Odd(Inversions(s))
  {
    hide CountBelow, Inversions;
    var a, p, q, b := s[..i], s[i], s[i + 1], s[i + 2..];
    var t, u := [p] + ([q] + b), [q] + ([p] + b);
    assert s == a + t && Swap(s, i, i + 1) == a + u;
    forall x
      ensures CountBelow(x, t) == CountBelow(x, u)
    {
      CountBelowFront(x, p, [q] + b);
      CountBelowFront(x, q, b);
      CountBelowFront(x, q, [p] + b);
      CountBelowFront(x, p, b);
    }
    InversionsBehind(a, t, u);
    InversionsFront(p, [q] + b);
    InversionsFront(q, b);
    InversionsFront(q, [p] + b);
    InversionsFront(p, b);
    CountBelowFront(p, q, b);
    CountBelowFront(q, p, b);
  }

  lemma CountBelowFront(x: int, p: int, b: seq<int>)
    ensures CountBelow(x, [p] + b) == (if p < x then 1 else 0) + CountBelow(x, b)
  {
    assert ([p] + b)[1..] == b;
  }

  lemma InversionsFront(p: int, b: seq<int>)
    ensures Inversions([p] + b) == CountBelow(p, b) + Inversions(b)
  {
    assert ([p] + b)[1..] == b;
  }

  /** Exchanging any two different entries changes the parity of the inversions. */
  lemma {:induction false} SwapFlipsParity(s: seq<int>, i: nat, j: nat)
    requires i < j < |s| && Distinct(s)
    ensures Odd(Inversions(Swap(s, i, j))) != Odd(Inversions(s))
    decreases j - i
  {
    if j == i + 1 {
      SwapNeighbours(s, i);
    } else {
      var s1 := Swap(s, i, i + 1);
      SwapNeighbours(s, i);
      SwapDistinct(s, i, i + 1);
      var s2 := Swap(s1, i + 1, j);
      SwapFlipsParity(s1, i + 1, j);
      SwapDistinct(s1, i + 1, j);
      SwapNeighbours(s2, i);
      assert Swap(s2, i, i + 1) == Swap(s, i, j);
    }
  }

  lemma {:induction false} CountBelowSmallest(x: int, s: seq<int>)
    requires forall k | 0 <= k < |s| :: s[k] >= x
    ensures CountBelow(x, s) == 0
  {
    if s != [] {
      CountBelowSmallest(x, s[1..]);
    }
  }

  lemma {:induction false} SortedHasNoInversions(s: seq<int>)
    requires forall i, j | 0 <= i < j < |s| :: s[i] <= s[j]
    ensures Inversions(s) == 0
  {
    if s != [] {
      CountBelowSmallest(s[0], s[1..]);
      SortedHasNoInversions(s[1..]);
    }
  }
}
