/**
 Products and remainders by a variable, defined by repetition: the proofs only ever step through them, and
 the solver is spared nonlinear arithmetic.
 */
module Arithmetic {
  import opened Bits

  /** The number of values of a 64-bit machine word. */
  const WORD: nat := 0x1_0000_0000_0000_0000

  ghost predicate Below(ids: seq<nat>, n: nat) {
    forall i :: 0 <= i < |ids| ==> ids[i] < n
  }

  /** The size of k rows of n cells each. */
  function Area(n: nat, k: nat): nat {
    if k == 0 then 0 else Area(n, k - 1) + n
  }

  lemma {:induction false} AreaOfNothing(g: nat)
    ensures Area(0, g) == 0
  {
    if g == 0 {
    } else {
      AreaOfNothing(g - 1);
    }
  }

  /** The remainder of x by m. */
  function Mod(x: nat, m: nat): (r: nat)
    requires 0 < m
    ensures r < m
    decreases x
  {
    if x < m then x else Mod(x - m, m)
  }

  lemma {:induction false} AreaIsProduct(n: nat, k: nat)
    ensures Area(n, k) == n * k
  {
    if k == 0 {
    } else {
      AreaIsProduct(n, k - 1);
    }
  }

  /** x is some number of rows of m, and the remainder. */
  lemma {:induction false} ModIsRemainder(x: nat, m: nat) returns (q: nat)
    requires 0 < m
    ensures x == Area(m, q) + Mod(x, m) == m * q + Mod(x, m)
  {
    if x < m {
      q := 0;
    } else {
      q := ModIsRemainder(x - m, m);
      q := q + 1;
    }
    AreaIsProduct(m, q);
  }

  lemma AtLeastOne(m: int, d: int)
    requires 0 <= m
    ensures (d > 0 ==> m * d >= m) && (d < 0 ==> m * d <= -m)
  {
  }

  /** Quotient and remainder are unique. */
  lemma RemainderUnique(x: nat, m: nat, q: nat, r: nat)
    requires r < m && x == m * q + r
    ensures x % m == r
  {
    var d := q - x / m;
    assert m * d == x % m - r;
    AtLeastOne(m, d);
  }

  /** It is the remainder of Dafny's own arithmetic. */
  lemma ModIs(x: nat, m: nat)
    requires 0 < m
    ensures Mod(x, m) == x % m
  {
    var q := ModIsRemainder(x, m);
    RemainderUnique(x, m, q, Mod(x, m));
  }

  lemma {:induction false} AreaSum(n: nat, j: nat, k: nat)
    ensures Area(n, j + k) == Area(n, j) + Area(n, k)
  {
    if k == 0 {
    } else {
      AreaSum(n, j, k - 1);
      assert j + k - 1 == j + (k - 1);
    }
  }

  lemma {:induction false} AreaMonotone(n: nat, j: nat, k: nat)
    requires j <= k
    ensures Area(n, j) <= Area(n, k)
    decreases k
  {
    if j == k {
    } else {
      AreaMonotone(n, j, k - 1);
    }
  }

  /** How often m goes into x. */
  function Div(x: nat, m: nat): nat
    requires 0 < m
    decreases x
  {
    if x < m then 0 else 1 + Div(x - m, m)
  }

  lemma {:induction false} DivMod(x: nat, m: nat)
    requires 0 < m
    ensures x == Area(m, Div(x, m)) + Mod(x, m)
  {
    if x < m {
    } else {
      DivMod(x - m, m);
    }
  }

  /** b is the least exponent with 2^b >= x. */
  function CeilLog2(x: nat): (b: nat)
    requires 1 <= x
    ensures x <= Pow2(b) && (b > 0 ==> Pow2(b - 1) < x)
  {
    CeilLog2From(x, 0)
  }

  function CeilLog2From(x: nat, k: nat): (b: nat)
    requires 1 <= x && (k > 0 ==> Pow2(k - 1) < x)
    ensures k <= b && x <= Pow2(b) && (b > 0 ==> Pow2(b - 1) < x)
    decreases x - Pow2(k)
  {
    if x <= Pow2(k) then k else CeilLog2From(x, k + 1)
  }
}
