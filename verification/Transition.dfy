/**
 Probability is conserved by the balls-into-bins matrices; one round as a Markov chain over the number of
 unresolved elements, and the probability of not being done after several rounds.
 */
module Transition {
  import opened Arithmetic
  import opened BallsIntoBins
  import opened PbsParams

  // ---------- conservation ----------

  /** 1 if a bins are empty. */
  function EmptyBins(n: nat, a: int): Throws -> real {
    w => if BinsWith(n, w, 0) == a then 1.0 else 0.0
  }

  ghost function EntryHits(n: nat, a: nat): nat -> Throws -> real {
    (b: nat) => if b == 0 then Constant(0.0) else Hit(n, a, b - 1)
  }

  ghost function RowEntries(n: nat, x: nat, a: nat): nat -> real
    requires 1 <= n
  {
    (b: nat) => Entry(n, x, a, b)
  }

  lemma RowTotal(n: nat, x: nat, a: nat, m: nat)
    requires 1 <= n && x <= m
    ensures SumBins(m + 2, RowEntries(n, x, a)) == Mean(n, x, EmptyBins(n, a))
  {
    var h := EntryHits(n, a);
    MeanConst(n, x, 0.0);
    SumBinsSame(m + 2, RowEntries(n, x, a), (b: nat) => Mean(n, x, h(b)));
    MeanSum(n, x, m + 2, h);
    forall w | IsThrows(n, x, w)
      ensures SumOf(m + 2, h)(w) == EmptyBins(n, a)(w)
    {
      ThrowsPossible(n, x, w);
      SumOne(m + 2, (b: nat) => h(b)(w), BinsWith(n, w, 1) + 1, EmptyBins(n, a)(w));
    }
    MeanSame(n, x, SumOf(m + 2, h), EmptyBins(n, a));
  }

  ghost function MatrixTotal(n: nat, x: nat, m: nat): real
    requires 1 <= n
  {
    SumBins(n + 1, (a: nat) => SumBins(m + 2, RowEntries(n, x, a)))
  }

  /** All entries of a matrix add up to 1. */
  lemma MatrixConserves(n: nat, x: nat, m: nat)
    requires 1 <= n && x <= m
    ensures MatrixTotal(n, x, m) == 1.0
  {
    var h: nat -> Throws -> real := (a: nat) => EmptyBins(n, a);
    forall a: nat
      ensures SumBins(m + 2, RowEntries(n, x, a)) == Mean(n, x, h(a))
    {
      RowTotal(n, x, a, m);
    }
    SumBinsSame(n + 1, (a: nat) => SumBins(m + 2, RowEntries(n, x, a)), (a: nat) => Mean(n, x, h(a)));
    MeanSum(n, x, n + 1, h);
    forall w | IsThrows(n, x, w)
      ensures SumOf(n + 1, h)(w) == Constant(1.0)(w)
    {
      LoadsAddUp(n, w);
      SumOne(n + 1, (a: nat) => h(a)(w), BinsWith(n, w, 0), 1.0);
    }
    MeanSame(n, x, SumOf(n + 1, h), Constant(1.0));
    MeanConst(n, x, 1.0);
  }

  // ---------- one round ----------

  /** 1 if s balls are alone and at most t bins are hit. */
  function Decoded(n: nat, t: nat, s: int): Throws -> real {
    w => if BinsWith(n, w, 1) == s && n - BinsWith(n, w, 0) <= t then 1.0 else 0.0
  }

  /** The probability that of x elements exactly j are not alone in their bin and decoding succeeds. */
  ghost function Left(n: nat, t: nat, x: nat, j: nat): real
    requires 1 <= n
  {
    Mean(n, x, Decoded(n, t, x - j))
  }

  ghost function Block(n: nat, x: nat, t: nat, s: int): nat -> real
    requires 1 <= n && t <= n
  {
    (k: nat) => P(n, x, n - t + k, s)
  }

  function BlockHits(n: nat, t: nat, s: int): nat -> Throws -> real {
    (k: nat) => Hit(n, n - t + k, s)
  }

  /** The sum of a block of t + 1 entries of a column. */
  lemma BlockSum(n: nat, x: nat, t: nat, s: int)
    requires 1 <= n && t <= n
    ensures SumBins(t + 1, Block(n, x, t, s)) == Mean(n, x, Decoded(n, t, s))
  {
    var h := BlockHits(n, t, s);
    forall k: nat
      ensures Block(n, x, t, s)(k) == Mean(n, x, h(k))
    {
      assert h(k) == Hit(n, n - t + k, s);
      assert P(n, x, n - t + k, s) == Mean(n, x, Hit(n, n - t + k, s));
    }
    SumBinsSame(t + 1, Block(n, x, t, s), (k: nat) => Mean(n, x, h(k)));
    MeanSum(n, x, t + 1, h);
    forall w: Throws
      ensures SumOf(t + 1, h)(w) == Decoded(n, t, s)(w)
    {
      LoadsAddUp(n, w);
      forall k: nat
        ensures h(k)(w) == if k == BinsWith(n, w, 0) - (n - t) && BinsWith(n, w, 1) == s then 1.0 else 0.0
      {
        assert h(k) == Hit(n, n - t + k, s);
      }
      SumOne(t + 1, (k: nat) => h(k)(w), BinsWith(n, w, 0) - (n - t), if BinsWith(n, w, 1) == s then 1.0 else 0.0);
    }
    MeanSame(n, x, SumOf(t + 1, h), Decoded(n, t, s));
  }

  function FewBins(n: nat, t: nat): Throws -> real {
    w => if n - BinsWith(n, w, 0) <= t then 1.0 else 0.0
  }

  ghost function Lefts(n: nat, t: nat, x: nat): nat -> real
    requires 1 <= n
  {
    (j: nat) => Left(n, t, x, j)
  }

  lemma LeftsNonneg(n: nat, t: nat, x: nat, k: nat)
    requires 1 <= n
    ensures 0.0 <= SumBins(k, Lefts(n, t, x)) && forall j: nat :: 0.0 <= Left(n, t, x, j)
  {
    forall j: nat
      ensures 0.0 <= Left(n, t, x, j)
    {
      MeanNonneg(n, x, Decoded(n, t, x - j));
    }
    SumBinsNonneg(k, Lefts(n, t, x));
  }

  /** All cases in which decoding succeeds. */
  lemma LeftsTotal(n: nat, t: nat, x: nat)
    requires 1 <= n
    ensures SumBins(x + 1, Lefts(n, t, x)) == Mean(n, x, FewBins(n, t)) <= 1.0
    ensures x <= t ==> SumBins(x + 1, Lefts(n, t, x)) == 1.0
  {
    var h: nat -> Throws -> real := (j: nat) => Decoded(n, t, x - j);
    SumBinsSame(x + 1, Lefts(n, t, x), (j: nat) => Mean(n, x, h(j)));
    MeanSum(n, x, x + 1, h);
    forall w | IsThrows(n, x, w)
      ensures SumOf(x + 1, h)(w) == FewBins(n, t)(w) && (x <= t ==> FewBins(n, t)(w) == Constant(1.0)(w))
    {
      ThrowsPossible(n, x, w);
      SumOne(x + 1, (j: nat) => h(j)(w), x - BinsWith(n, w, 1), FewBins(n, t)(w));
    }
    MeanSame(n, x, SumOf(x + 1, h), FewBins(n, t));
    MeanConst(n, x, 1.0);
    if x <= t {
      MeanSame(n, x, FewBins(n, t), Constant(1.0));
    }
    AtMostOne(n, x, FewBins(n, t));
  }

  lemma AtMostOne(n: nat, x: nat, f: Throws -> real)
    requires 1 <= n && forall w :: f(w) <= 1.0
    ensures Mean(n, x, f) <= 1.0
  {
    var rest := Added(Constant(1.0), Scaled(-1.0, f));
    MeanAdd(n, x, Constant(1.0), Scaled(-1.0, f));
    MeanScale(n, x, -1.0, f);
    MeanConst(n, x, 1.0);
    MeanNonneg(n, x, rest);
  }

  /** The chance to go from i unresolved elements to j in one round. */
  ghost function Step(n: nat, t: nat, i: nat, j: nat): real
    requires 1 <= n
  {
    if i == 0 then (if j == 0 then 1.0 else 0.0)
    else if j > i then 0.0
    else if i > t && j == i then 1.0 - SumBins(i, Lefts(n, t, i))
    else Left(n, t, i, j)
  }

  ghost function Steps(n: nat, t: nat, i: nat): nat -> real
    requires 1 <= n
  {
    (j: nat) => Step(n, t, i, j)
  }

  lemma {:induction false} SumTail(k: nat, m: nat, f: nat -> real)
    requires k <= m && forall i: nat :: k <= i < m ==> f(i) == 0.0
    ensures SumBins(m, f) == SumBins(k, f)
    decreases m
  {
    if k == m {
    } else {
      SumTail(k, m - 1, f);
    }
  }

  /** The transition matrix is row-stochastic, and done stays done. */
  lemma StepsStochastic(n: nat, t: nat, m: nat, i: nat)
    requires 1 <= n && i <= m
    ensures forall j: nat :: 0.0 <= Step(n, t, i, j)
    ensures SumBins(m + 1, Steps(n, t, i)) == 1.0
    ensures Step(n, t, 0, 0) == 1.0
  {
    LeftsTotal(n, t, i);
    LeftsNonneg(n, t, i, i);
    assert SumBins(i + 1, Lefts(n, t, i)) == SumBins(i, Lefts(n, t, i)) + Left(n, t, i, i);
    SumTail(i + 1, m + 1, Steps(n, t, i));
    if i == 0 {
      assert SumBins(1, Steps(n, t, 0)) == SumBins(0, Steps(n, t, 0)) + Step(n, t, 0, 0);
    } else {
      SumBinsSame(i, Steps(n, t, i), Lefts(n, t, i));
      assert SumBins(i + 1, Steps(n, t, i)) == SumBins(i, Steps(n, t, i)) + Step(n, t, i, i);
    }
  }

  // ---------- several rounds ----------

  /** Entry (i, j) of the k-th power of the matrix. */
  ghost function Power(n: nat, t: nat, m: nat, k: nat, i: nat, j: nat): real
    requires 1 <= n && 1 <= k
    decreases k, 0
  {
    if k == 1 then Step(n, t, i, j) else SumBins(m + 1, Products(n, t, m, k - 1, i, j))
  }

  ghost function Products(n: nat, t: nat, m: nat, k: nat, i: nat, j: nat): nat -> real
    requires 1 <= n && 1 <= k
    decreases k, 1
  {
    (l: nat) => Power(n, t, m, k, i, l) * Step(n, t, l, j)
  }

  ghost function PowerRow(n: nat, t: nat, m: nat, k: nat, i: nat): nat -> real
    requires 1 <= n && 1 <= k
  {
    (j: nat) => Power(n, t, m, k, i, j)
  }

  /** The probability that i elements are not all resolved after k rounds. */
  ghost function Failure(n: nat, t: nat, m: nat, k: nat, i: nat): real
    requires 1 <= n && 1 <= k
  {
    1.0 - Power(n, t, m, k, i, 0)
  }

  lemma ProductNonneg(a: real, b: real)
    requires 0.0 <= a && 0.0 <= b
    ensures 0.0 <= a * b
  {
  }

  lemma PowerNonneg(n: nat, t: nat, m: nat, k: nat, i: nat, j: nat)
    requires 1 <= n && 1 <= k && i <= m
    ensures 0.0 <= Power(n, t, m, k, i, j)
    decreases k
  {
    StepsStochastic(n, t, m, i);
    if k == 1 {
    } else {
      forall l: nat | l < m + 1
        ensures 0.0 <= Power(n, t, m, k - 1, i, l) * Step(n, t, l, j)
      {
        PowerNonneg(n, t, m, k - 1, i, l);
        StepsStochastic(n, t, m, l);
        ProductNonneg(Power(n, t, m, k - 1, i, l), Step(n, t, l, j));
      }
      SumBinsNonneg(m + 1, Products(n, t, m, k - 1, i, j));
    }
  }

  function RowSums(b: nat, f: nat -> nat -> real): nat -> real {
    (j: nat) => SumBins(b, f(j))
  }

  function Column(f: nat -> nat -> real, l: nat): nat -> real {
    (j: nat) => f(j)(l)
  }

  function ColumnSums(a: nat, f: nat -> nat -> real): nat -> real {
    (l: nat) => SumBins(a, Column(f, l))
  }

  /** Sums in either order. */
  lemma {:induction false} SumSwap(a: nat, b: nat, f: nat -> nat -> real)
    ensures SumBins(a, RowSums(b, f)) == SumBins(b, ColumnSums(a, f))
  {
    if a == 0 {
      SumBinsConst(b, 0.0);
      SumBinsSame(b, ColumnSums(0, f), _ => 0.0);
    } else {
      SumSwap(a - 1, b, f);
      SumBinsAdd(b, ColumnSums(a - 1, f), f(a - 1));
      SumBinsSame(b, ColumnSums(a, f), (l: nat) => ColumnSums(a - 1, f)(l) + f(a - 1)(l));
    }
  }

  ghost function AllProducts(n: nat, t: nat, m: nat, k: nat, i: nat): nat -> nat -> real
    requires 1 <= n && 1 <= k
  {
    (j: nat) => Products(n, t, m, k, i, j)
  }

  lemma ProductsColumn(n: nat, t: nat, m: nat, k: nat, i: nat, l: nat)
    requires 1 <= n && 1 <= k && l <= m
    ensures ColumnSums(m + 1, AllProducts(n, t, m, k, i))(l) == Power(n, t, m, k, i, l)
  {
    var c := Power(n, t, m, k, i, l);
    StepsStochastic(n, t, m, l);
    SumBinsScale(m + 1, c, Steps(n, t, l));
    SumBinsSame(m + 1, Column(AllProducts(n, t, m, k, i), l), (j: nat) => c * Steps(n, t, l)(j));
  }

  /** Every power is row-stochastic. */
  lemma {:induction false} PowerStochastic(n: nat, t: nat, m: nat, k: nat, i: nat)
    requires 1 <= n && 1 <= k && i <= m
    ensures SumBins(m + 1, PowerRow(n, t, m, k, i)) == 1.0
    decreases k
  {
    if k == 1 {
      StepsStochastic(n, t, m, i);
      SumBinsSame(m + 1, PowerRow(n, t, m, 1, i), Steps(n, t, i));
    } else {
      PowerStochastic(n, t, m, k - 1, i);
      var f := AllProducts(n, t, m, k - 1, i);
      SumBinsSame(m + 1, PowerRow(n, t, m, k, i), RowSums(m + 1, f));
      SumSwap(m + 1, m + 1, f);
      forall l: nat | l < m + 1
        ensures SumBins(m + 1, Column(f, l)) == Power(n, t, m, k - 1, i, l)
      {
        ProductsColumn(n, t, m, k - 1, i, l);
      }
      SumBinsSame(m + 1, ColumnSums(m + 1, f), PowerRow(n, t, m, k - 1, i));
    }
  }

  lemma {:induction false} SumAtLeastFirst(k: nat, f: nat -> real)
    requires 1 <= k && forall i: nat :: i < k ==> 0.0 <= f(i)
    ensures f(0) <= SumBins(k, f)
  {
    if k == 1 {
      assert SumBins(1, f) == SumBins(0, f) + f(0);
    } else {
      SumAtLeastFirst(k - 1, f);
    }
  }

  /** Every failure probability lies between 0 and 1 and never grows with the number of rounds. */
  lemma FailureProbabilities(n: nat, t: nat, m: nat, k: nat, i: nat)
    requires 1 <= n && 1 <= k && i <= m
    ensures 0.0 <= Failure(n, t, m, k, i) <= 1.0
    ensures Failure(n, t, m, k + 1, i) <= Failure(n, t, m, k, i)
    ensures Failure(n, t, m, k, 0) == 0.0
  {
    forall j: nat
      ensures 0.0 <= Power(n, t, m, k, i, j) && 0.0 <= Power(n, t, m, k, 0, j)
    {
      PowerNonneg(n, t, m, k, i, j);
      PowerNonneg(n, t, m, k, 0, j);
    }
    PowerStochastic(n, t, m, k, i);
    SumAtLeastFirst(m + 1, PowerRow(n, t, m, k, i));
    forall l: nat | l < m + 1
      ensures 0.0 <= Power(n, t, m, k, i, l) * Step(n, t, l, 0)
    {
      StepsStochastic(n, t, m, l);
      ProductNonneg(Power(n, t, m, k, i, l), Step(n, t, l, 0));
    }
    SumAtLeastFirst(m + 1, Products(n, t, m, k, i, 0));
    DoneStaysDone(n, t, m, k);
  }

  lemma OnlyFirst(n: nat, t: nat, m: nat, k: nat, j: nat)
    requires 1 <= n && 1 <= k
    requires forall l: nat :: l <= m ==> Power(n, t, m, k, 0, l) == if l == 0 then 1.0 else 0.0
    ensures forall l: nat :: l < m + 1 ==> Products(n, t, m, k, 0, j)(l) == if l == 0 then Step(n, t, 0, j) else 0.0
  {
    forall l: nat
      ensures l < m + 1 ==> Power(n, t, m, k, 0, l) * Step(n, t, l, j) == if l == 0 then Step(n, t, 0, j) else 0.0
    {
    }
  }

  lemma {:induction false} DoneStaysDone(n: nat, t: nat, m: nat, k: nat)
    requires 1 <= n && 1 <= k
    ensures forall j: nat :: j <= m ==> Power(n, t, m, k, 0, j) == if j == 0 then 1.0 else 0.0
    decreases k
  {
    if k == 1 {
    } else {
      DoneStaysDone(n, t, m, k - 1);
      forall j: nat | j <= m
        ensures Power(n, t, m, k, 0, j) == if j == 0 then 1.0 else 0.0
      {
        OnlyFirst(n, t, m, k - 1, j);
        SumOne(m + 1, Products(n, t, m, k - 1, 0, j), 0, Step(n, t, 0, j));
      }
    }
  }

  // ---------- the code ----------

  /** The sum of a block of a column. */
  method BlockOf(m3d: array3<real>, n: nat, m: nat, t: nat, x: nat, col: nat) returns (sum: real)
    requires Shaped(m3d, m, n) && 1 <= x <= m < n && t <= n && 1 <= col <= m + 1 && LevelRight(m3d, n, x)
    ensures sum == Mean(n, x, Decoded(n, t, col - 1))
  {
    sum := 0.0;
    var k := 0;
    while k < t + 1
      invariant k <= t + 1 && sum == SumBins(k, Block(n, x, t, col - 1))
    {
      sum := sum + m3d[x, n - t + k, col];
      k := k + 1;
    }
    BlockSum(n, x, t, col - 1);
  }

  /** What row i of the matrix holds when its first k values are set; column 0 is not used. */
  ghost function Filled(n: nat, t: nat, i: nat, k: nat, c: nat): real
    requires 1 <= n
  {
    if 1 <= c <= i + 1 && c <= k then Left(n, t, i, c - 1) else 0.0
  }

  ghost predicate RowFilled(m2d: array2<real>, n: nat, t: nat, i: nat, k: nat)
    requires 1 <= n && i < m2d.Length0
    reads m2d
  {
    forall c: nat :: c < m2d.Length1 ==> m2d[i, c] == Filled(n, t, i, k, c)
  }

  /** Row i as it should be. */
  ghost predicate RowRight(m2d: array2<real>, n: nat, t: nat, i: nat)
    requires 1 <= n && i < m2d.Length0
    reads m2d
  {
    forall c: nat :: c < m2d.Length1 ==> m2d[i, c] == if c == 0 then 0.0 else Step(n, t, i, c - 1)
  }

  method FillTransitionRow(m3d: array3<real>, m2d: array2<real>, m: nat, n: nat, t: nat, i: nat)
    requires Shaped(m3d, m, n) && m2d.Length0 == m + 1 && m2d.Length1 == m + 2 && 1 <= i <= m < n && t <= n
    requires LevelRight(m3d, n, i) && RowFilled(m2d, n, t, i, 0)
    modifies m2d
    ensures RowFilled(m2d, n, t, i, i + 1)
    ensures forall y: nat, c: nat :: y <= m && c <= m + 1 && y != i ==> m2d[y, c] == old(m2d[y, c])
  {
    var j := 0;
    while j <= i
      invariant j <= i + 1 && LevelRight(m3d, n, i) && RowFilled(m2d, n, t, i, j)
      invariant forall y: nat, c: nat :: y <= m && c <= m + 1 && y != i ==> m2d[y, c] == old(m2d[y, c])
    {
      var sum := BlockOf(m3d, n, m, t, i, i - j + 1);
      assert sum == Left(n, t, i, j);
      m2d[i, j + 1] := sum;
      j := j + 1;
    }
  }

  /** The diagonal of a row in which decoding may fail takes what is missing to 1. */
  method CompleteRow(m2d: array2<real>, m: nat, n: nat, t: nat, i: nat)
    requires m2d.Length0 == m + 1 && m2d.Length1 == m + 2 && 1 <= i <= m < n && t < i
    requires RowFilled(m2d, n, t, i, i + 1)
    modifies m2d
    ensures RowRight(m2d, n, t, i)
    ensures forall y: nat, c: nat :: y <= m && c <= m + 1 && y != i ==> m2d[y, c] == old(m2d[y, c])
  {
    var sum, c := 0.0, 0;
    while c < i
      invariant c <= i && sum == SumBins(c, Lefts(n, t, i))
    {
      sum := sum + m2d[i, c + 1];
      c := c + 1;
    }
    m2d[i, i + 1] := 1.0 - sum;
  }

  /** Row y during the first loop, which has reached row i, and during the second. */
  ghost predicate FirstPass(m2d: array2<real>, n: nat, t: nat, y: nat, i: nat)
    requires 1 <= n && y < m2d.Length0
    reads m2d
  {
    RowFilled(m2d, n, t, y, if y < i then y + 1 else 0)
  }

  ghost predicate SecondPass(m2d: array2<real>, n: nat, t: nat, y: nat, i: nat)
    requires 1 <= n && y < m2d.Length0
    reads m2d
  {
    if t < y < i then RowRight(m2d, n, t, y) else RowFilled(m2d, n, t, y, y + 1)
  }

  lemma NoFailure(m2d: array2<real>, n: nat, t: nat, y: nat, i: nat)
    requires 1 <= y && 1 <= n && y < m2d.Length0 && (y <= t || y < i)
    requires SecondPass(m2d, n, t, y, i)
    ensures RowRight(m2d, n, t, y)
  {
  }

  /** computeTransitionProbabilityMatrix. */
  method ComputeTransitionProbabilityMatrix(m: nat, n: nat, t: nat) returns (m2d: array2<real>)
    requires 1 <= m < n < WORD && t <= n
    ensures m2d.Length0 == m + 1 && m2d.Length1 == m + 2
    ensures forall i: nat :: 1 <= i <= m ==> RowRight(m2d, n, t, i)
    ensures forall i: nat, j: nat :: 1 <= i <= m && j <= m ==> m2d[i, j + 1] == Step(n, t, i, j)
  {
    m2d := new real[m + 1, m + 2]((_, _) => 0.0);
    var m3d := ComputeProbabilityMatrix3D(m, n);
    var i := 1;
    while i <= m
      invariant 1 <= i <= m + 1
      invariant forall x: nat :: 1 <= x <= m ==> LevelRight(m3d, n, x)
      invariant forall y: nat :: 1 <= y <= m ==> FirstPass(m2d, n, t, y, i)
    {
      label before:
      assert FirstPass(m2d, n, t, i, i);
      FillTransitionRow(m3d, m2d, m, n, t, i);
      i := i + 1;
      forall y: nat | 1 <= y <= m
        ensures FirstPass(m2d, n, t, y, i)
      {
        assert old@before(FirstPass(m2d, n, t, y, i - 1));
      }
    }
    ghost var end := i;
    i := t + 1;
    forall y: nat | 1 <= y <= m
      ensures SecondPass(m2d, n, t, y, i)
    {
      assert FirstPass(m2d, n, t, y, end);
    }
    while i <= m
      invariant t + 1 <= i
      invariant forall y: nat :: 1 <= y <= m ==> SecondPass(m2d, n, t, y, i)
    {
      label turn:
      assert SecondPass(m2d, n, t, i, i);
      CompleteRow(m2d, m, n, t, i);
      i := i + 1;
      forall y: nat | 1 <= y <= m
        ensures SecondPass(m2d, n, t, y, i)
      {
        assert old@turn(SecondPass(m2d, n, t, y, i - 1));
      }
    }
    forall y: nat | 1 <= y <= m
      ensures RowRight(m2d, n, t, y)
    {
      NoFailure(m2d, n, t, y, i);
    }
    forall y: nat, j: nat | 1 <= y <= m && j <= m
      ensures m2d[y, j + 1] == Step(n, t, y, j)
    {
      assert RowRight(m2d, n, t, y);
    }
  }

  // ---------- powers ----------

  ghost predicate IsPower(a: array2<real>, n: nat, t: nat, m: nat, k: nat)
    requires 1 <= n && 1 <= k
    reads a
  {
    a.Length0 == a.Length1 == m + 1 && forall i: nat, j: nat :: i <= m && j <= m ==> a[i, j] == Power(n, t, m, k, i, j)
  }

  method Multiply(a: array2<real>, b: array2<real>, n: nat, t: nat, m: nat, ghost k: nat) returns (c: array2<real>)
    requires 1 <= n && 1 <= k && IsPower(a, n, t, m, k) && IsPower(b, n, t, m, 1)
    ensures fresh(c) && IsPower(c, n, t, m, k + 1)
  {
    c := new real[m + 1, m + 1]((_, _) => 0.0);
    var i := 0;
    while i <= m
      invariant i <= m + 1
      invariant forall y: nat, z: nat :: y < i && z <= m ==> c[y, z] == Power(n, t, m, k + 1, y, z)
    {
      var j := 0;
      while j <= m
        invariant j <= m + 1
        invariant forall y: nat, z: nat :: z <= m && (y < i || (y == i && z < j)) ==>
                    c[y, z] == Power(n, t, m, k + 1, y, z)
      {
        var sum := Dot(a, b, n, t, m, k, i, j);
        c[i, j] := sum;
        j := j + 1;
      }
      i := i + 1;
    }
  }

  method Dot(a: array2<real>, b: array2<real>, n: nat, t: nat, m: nat, ghost k: nat, i: nat, j: nat) returns (sum: real)
    requires 1 <= n && 1 <= k && i <= m && j <= m && IsPower(a, n, t, m, k) && IsPower(b, n, t, m, 1)
    ensures sum == Power(n, t, m, k + 1, i, j)
  {
    sum := 0.0;
    var l := 0;
    while l <= m
      invariant l <= m + 1 && sum == SumBins(l, Products(n, t, m, k, i, j))
    {
      sum := sum + a[i, l] * b[l, j];
      l := l + 1;
    }
  }

  /** trans_mat_reform: the transition matrix with its unused column dropped and state 0 made absorbing. */
  method Reform(m2d: array2<real>, m: nat, n: nat, t: nat) returns (a: array2<real>)
    requires 1 <= n && m2d.Length0 == m + 1 && m2d.Length1 == m + 2
    requires forall i: nat :: 1 <= i <= m ==> RowRight(m2d, n, t, i)
    ensures fresh(a) && IsPower(a, n, t, m, 1)
  {
    a := new real[m + 1, m + 1]((_, _) => 0.0);
    var i := 1;
    while i <= m
      invariant 1 <= i <= m + 1
      invariant forall y: nat, z: nat :: y <= m && z <= m ==> a[y, z] == if 1 <= y < i then Step(n, t, y, z) else 0.0
    {
      var j := 0;
      assert RowRight(m2d, n, t, i);
      while j <= m
        invariant j <= m + 1
        invariant forall y: nat, z: nat :: y <= m && z <= m ==>
          a[y, z] == if 1 <= y < i || (y == i && z < j) then Step(n, t, y, z) else 0.0
      {
        a[i, j] := m2d[i, j + 1];
        j := j + 1;
      }
      i := i + 1;
    }
    a[0, 0] := 1.0;
  }
}
