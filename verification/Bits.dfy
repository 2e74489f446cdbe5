/** The C operators & and | on natural numbers, and what the masks of the kernel compute. */
module Bits {
  import opened Arith

  /** The bits set in both. */
  function And(a: nat, b: nat): nat
  {
    if a == 0 || b == 0 then 0 else 2 * And(a / 2, b / 2) + if a % 2 == 1 && b % 2 == 1 then 1 else 0
  }

  /** The bits set in either. */
  function Or(a: nat, b: nat): nat
    decreases a + b
  {
    if a == 0 && b == 0 then 0 else 2 * Or(a / 2, b / 2) + if a % 2 == 1 || b % 2 == 1 then 1 else 0
  }

  type Positive = x: int | 0 < x witness 1

  function Pow2(k: nat): Positive
  {
    if k == 0 then 1 else 2 * Pow2(k - 1)
  }

  lemma Pow2Up(k: nat)
    ensures Pow2(k + 4) == 16 * Pow2(k)
  {
    assert Pow2(k + 4) == 2 * Pow2(k + 3) && Pow2(k + 3) == 2 * Pow2(k + 2) && Pow2(k + 2) == 2 * Pow2(k + 1);
  }

  lemma Pow2Up16(k: nat)
    ensures Pow2(k + 16) == 65536 * Pow2(k)
  {
    hide Pow2;
    Pow2Up(k);
    Pow2Up(k + 4);
    Pow2Up(k + 8);
    Pow2Up(k + 12);
  }

  lemma Pow2None()
    ensures Pow2(0) == 1
  {
  }

  lemma Pow2Next(k: nat)
    ensures Pow2(k + 1) == 2 * Pow2(k)
  {
  }

  lemma {:induction false} Pow2Grows(k: nat, n: nat)
    requires k <= n
    ensures Pow2(k) <= Pow2(n)
    decreases n
  {
    if k < n { Pow2Grows(k, n - 1); }
  }

  lemma Powers()
    ensures Pow2(4) == 16 && Pow2(12) == 4096 && Pow2(32) == 0x1_0000_0000 && Pow2(64) == WORD
  {
    hide Pow2;
    Pow2None();
    Pow2Up(0);
    Pow2Up(4);
    Pow2Up(8);
    Pow2Up16(0);
    Pow2Up16(16);
    Pow2Up16(32);
    Pow2Up16(48);
  }

  // ----- Disjoint bits -----

  /** Where no bit is set in both, "or" adds. */
  lemma {:induction false} OrPlus(a: nat, b: nat)
    requires And(a, b) == 0
    ensures Or(a, b) == a + b
    decreases a + b
  {
    if a > 0 && b > 0 { OrPlus(a / 2, b / 2); }
    else if a > 0 { OrPlus(a / 2, 0); }
    else if b > 0 { OrPlus(0, b / 2); }
  }

  lemma {:induction false} HighAndLow(hi: nat, lo: nat, k: nat)
    requires lo < Pow2(k)
    ensures And(hi * Pow2(k), lo) == 0
    decreases k
  {
    if k > 0 {
      var half := hi * Pow2(k - 1);
      assert hi * Pow2(k) == 2 * half;
      HighAndLow(hi, lo / 2, k - 1);
    }
  }

  /** Low bits are put below a multiple of a power of two. */
  lemma OrLow(hi: nat, lo: nat, k: nat)
    requires lo < Pow2(k)
    ensures Or(hi * Pow2(k), lo) == hi * Pow2(k) + lo
  {
    HighAndLow(hi, lo, k);
    OrPlus(hi * Pow2(k), lo);
  }

  /** Setting the lowest bit. */
  lemma OrOne(x: nat)
    ensures Or(x, 1) == if x % 2 == 1 then x else x + 1
  {
    OrPlus(x / 2, 0);
  }

  /** Testing the lowest bit. */
  lemma AndOne(x: nat)
    ensures And(x, 1) == x % 2
  {
  }

  // ----- Masks -----

  lemma HalfMod(x: nat, p: nat)
    requires p > 0
    ensures x % (2 * p) == 2 * (x / 2 % p) + x % 2
  {
    var y := x / 2;
    assert y == p * (y / p) + y % p;
    assert 2 * (p * (y / p)) == 2 * p * (y / p);
    ModUnique(x, 2 * p, y / p, 2 * (y % p) + x % 2);
  }

  lemma HalfDiv(x: nat, p: nat)
    requires p > 0
    ensures x / (2 * p) == x / 2 / p
  {
    var y := x / 2;
    assert y == p * (y / p) + y % p;
    assert 2 * (p * (y / p)) == 2 * p * (y / p);
    ModUnique(x, 2 * p, y / p, 2 * (y % p) + x % 2);
  }

  lemma {:induction false} AndOnes(x: nat, n: nat)
    ensures And(x, Pow2(n) - 1) == x % Pow2(n)
    decreases n
  {
    if n > 0 {
      AndOnes(x / 2, n - 1);
      HalfMod(x, Pow2(n - 1));
    }
  }

  /** x rounded down to a multiple of p. */
  function Down(x: nat, p: nat): nat
    requires p > 0
  {
    x / p * p
  }

  lemma DownToOne(x: nat)
    ensures Down(x, 1) == x
  {
  }

  lemma HalfDown(x: nat, p: nat)
    requires p > 0
    ensures Down(x, 2 * p) == 2 * Down(x / 2, p)
  {
    HalfDiv(x, p);
    var q := x / 2 / p;
    assert q * (2 * p) == 2 * (q * p);
  }

  lemma MaskHalves(x: nat, m: nat)
    ensures And(x, 2 * m) == 2 * And(x / 2, m)
  {
    var d := 2 * m;
    assert d / 2 == m && d % 2 == 0;
  }

  /** The mask of n ones above k zeros drops the low k bits and everything above. */
  lemma {:induction false} AndMask(x: nat, k: nat, n: nat)
    ensures Pow2(k) <= Pow2(k + n)
    ensures And(x, Pow2(k + n) - Pow2(k)) == Down(x % Pow2(k + n), Pow2(k))
    decreases k
  {
    hide And, Down, Pow2;
    Pow2None();
    if k == 0 {
      AndOnes(x, n);
      DownToOne(x % Pow2(n));
    } else {
      var p: nat, q: nat := Pow2(k - 1 + n), Pow2(k - 1);
      Pow2Next(k - 1);
      Pow2Next(k - 1 + n);
      AndMask(x / 2, k - 1, n);
      HalfMod(x, p);
      HalfDown(x % (2 * p), q);
      MaskHalves(x, p - q);
    }
  }

  lemma {:induction false} AndSelf(a: nat)
    ensures And(a, a) == a
  {
    if a > 0 { AndSelf(a / 2); }
  }
}
