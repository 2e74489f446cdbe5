/** Definitions and integer facts used by several components. */
module Arith {
  /** The number of values of a 64-bit word. */
  const WORD: nat := 0x1_0000_0000_0000_0000

  function Min(a: nat, b: nat): nat { if a <= b then a else b }

  function Max(a: nat, b: nat): nat { if a < b then b else a }

  ghost predicate Distinct(s: seq<nat>) { forall i: nat, j: nat | i < j < |s| :: s[i] != s[j] }

  lemma Multiples(m: nat, d: int)
    requires m > 0
    ensures d >= 1 ==> m * d >= m
    ensures d <= -1 ==> m * d <= 0 - m
  {
    if d >= 1 {
      assert m * d == m + m * (d - 1);
    } else if d <= -1 {
      assert m * d == m * (d + 1) - m;
    }
  }

  /** Quotient and remainder are the only decomposition. */
  lemma ModUnique(x: nat, m: nat, k: int, r: nat)
    requires m > 0 && x == m * k + r && r < m
    ensures x % m == r && x / m == k
  {
    assert m * (x / m) + x % m == x;
    assert m * (x / m - k) == r - x % m;
    Multiples(m, x / m - k);
  }

  /** Block i of n blocks of width w ends inside. */
  lemma BlockFits(i: nat, n: nat, w: nat)
    requires i < n
    ensures i * w + w <= n * w
  {
    var d := n - i;
    assert n * w == i * w + d * w;
    assert d * w == w + (d - 1) * w;
  }

  /** A position lies in one block only. */
  lemma BlockUnique(i: nat, x: nat, j: nat, y: nat, w: nat)
    requires x < w && y < w && i * w + x == j * w + y
    ensures i == j && x == y
  {
    var p := i * w + x;
    ModUnique(p, w, i, x);
    ModUnique(p, w, j, y);
  }
}
