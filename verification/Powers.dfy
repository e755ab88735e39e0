/** Powers of two and binary digit sums: the arithmetic behind the bound on 2048 boards. */
module Powers {

  function Pow2(k: nat): (p: nat)
    ensures p >= 1
  {
    if k == 0 then 1 else 2 * Pow2(k - 1)
  }

  /** The number of ones in the binary writing of `m`. */
  function PopCount(m: nat): nat {
    if m == 0 then 0 else m % 2 + PopCount(m / 2)
  }

  lemma {:induction false} Pow2Increasing(j: nat, k: nat)
    requires j <= k
    ensures Pow2(j) <= Pow2(k)
  {
    if j < k {
      Pow2Increasing(j, k - 1);
    }
  }

  /** Adding a power of two adds at most one binary one: carries only merge ones. */
  lemma {:induction false} PopCountAddPow2(m: nat, k: nat)
    ensures PopCount(m + Pow2(k)) <= PopCount(m) + 1
    decreases m + k
  {
    if k > 0 {
      var q := Pow2(k - 1);
      assert (m + 2 * q) / 2 == m / 2 + q && (m + 2 * q) % 2 == m % 2;
      PopCountAddPow2(m / 2, k - 1);
    } else if m % 2 == 1 {
      assert (m + 1) / 2 == m / 2 + 1;
      PopCountAddPow2(m / 2, 0);
    } else {
      assert (m + 1) / 2 == m / 2;
    }
  }

  lemma PopCountDouble(m: nat)
    ensures PopCount(2 * m) == PopCount(m)
    ensures PopCount(2 * m + 1) == PopCount(m) + 1
  {
    assert (2 * m) / 2 == m && (2 * m + 1) / 2 == m;
  }

  lemma {:induction false} PopCountOnes(n: nat)
    ensures PopCount(Pow2(n) - 1) == n
  {
    if n > 0 {
      PopCountOnes(n - 1);
      PopCountDouble(Pow2(n - 1) - 1);
    }
  }

  /** The two largest even numbers up to 2^(n+2) - 4 both need `n` binary ones. */
  lemma PopCountNearTop(n: nat)
    requires n >= 1
    ensures Pow2(n + 2) == 4 * Pow2(n) >= 8
    ensures PopCount(Pow2(n + 2) - 4) == n
    ensures PopCount(Pow2(n + 2) - 6) == n
  {
    var q := Pow2(n) - 1;
    PopCountOnes(n);
    PopCountDouble(q);
    PopCountDouble(2 * q);
    assert Pow2(n + 2) - 4 == 2 * (2 * q);
    var r := Pow2(n - 1) - 1;
    PopCountOnes(n - 1);
    PopCountDouble(r);
    PopCountDouble(2 * r);
    PopCountDouble(2 * (2 * r) + 1);
    assert Pow2(n + 2) - 6 == 2 * (2 * (2 * r) + 1);
  }
}
