/**
 The probability of not being done after several rounds: the matrix of the optimiser against a mean over the throws of
 one round after another. More capacity never hurts, and more elements never help.
 */
module MultiRound {
  import opened Arithmetic
  import opened BallsIntoBins
  import opened Transition

  // ---------- one round, one sequence of throws ----------

  /** How many elements are left after a round with these throws. */
  function LeftBy(n: nat, t: nat, w: Throws): nat {
    if n - BinsWith(n, w, 0) <= t && BinsWith(n, w, 1) <= |w| then |w| - BinsWith(n, w, 1) else |w|
  }

  // ---------- the loads, ball by ball ----------

  /** The balls in bin k. */
  ghost function BallsIn(w: Throws, k: nat): set<nat> {
    set i: nat | i < |w| && w[i] == k
  }

  lemma {:induction false} LoadIs(w: Throws, k: nat)
    ensures Load(w, k) == |BallsIn(w, k)|
  {
    if w == [] {
    } else {
      var init, last := w[..|w| - 1], |w| - 1;
      LoadIs(init, k);
      assert BallsIn(w, k) == BallsIn(init, k) + (if w[last] == k then {last} else {});
      assert last !in BallsIn(init, k);
    }
  }

  /** The bins below n that are hit. */
  ghost function HitBins(n: nat, w: Throws): set<nat> {
    set k: nat | k < n && k in w
  }

  lemma {:induction false} LoadHits(w: Throws, k: nat)
    ensures Load(w, k) > 0 <==> k in w
  {
    if w == [] {
    } else {
      LoadHits(w[..|w| - 1], k);
      assert w == w[..|w| - 1] + [w[|w| - 1]];
    }
  }

  lemma UnionSize(a: set<nat>, b: set<nat>)
    requires a !! b
    ensures |a + b| == |a| + |b|
  {
  }

  lemma {:induction false} HitBinsCount(n: nat, w: Throws)
    ensures BinsWith(n, w, 0) + |HitBins(n, w)| == n
  {
    if n == 0 {
    } else {
      var k := n - 1;
      HitBinsCount(k, w);
      LoadHits(w, k);
      OneMoreBin(k, w);
    }
  }

  lemma OneMoreBin(k: nat, w: Throws)
    ensures |HitBins(k + 1, w)| == |HitBins(k, w)| + (if k in w then 1 else 0)
  {
    var one: set<nat> := if k in w then {k} else {};
    assert HitBins(k + 1, w) == HitBins(k, w) + one;
    UnionSize(HitBins(k, w), one);
  }

  /** No other ball is in the bin of ball i. */
  ghost predicate Alone(w: Throws, i: nat)
    requires i < |w|
  {
    forall j: nat :: j < |w| && j != i ==> w[j] != w[i]
  }

  /** The balls that are alone in a bin below n. */
  ghost function AloneBalls(n: nat, w: Throws): set<nat> {
    set i: nat | i < |w| && w[i] < n && Alone(w, i)
  }

  ghost function AloneIn(w: Throws, k: nat): set<nat> {
    set i: nat | i < |w| && w[i] == k && Alone(w, i)
  }

  lemma AloneInCount(w: Throws, k: nat)
    ensures |AloneIn(w, k)| == if Load(w, k) == 1 then 1 else 0
  {
    LoadIs(w, k);
    if Load(w, k) == 1 {
      var i :| i in BallsIn(w, k);
      OnlyMember(BallsIn(w, k), i);
      forall j: nat | j < |w| && j != i
        ensures w[j] != k
      {
        assert j !in BallsIn(w, k);
      }
      assert AloneIn(w, k) == {i};
    } else if AloneIn(w, k) != {} {
      var i :| i in AloneIn(w, k);
      AloneOnly(w, i);
    }
  }

  lemma AloneOnly(w: Throws, i: nat)
    requires i < |w| && Alone(w, i)
    ensures BallsIn(w, w[i]) == {i}
  {
  }

  lemma OnlyMember(s: set<nat>, x: nat)
    requires |s| == 1 && x in s
    ensures s == {x}
  {
    assert |s - {x}| == 0;
  }

  lemma {:induction false} AloneCount(n: nat, w: Throws)
    ensures BinsWith(n, w, 1) == |AloneBalls(n, w)|
  {
    if n == 0 {
    } else {
      var k := n - 1;
      AloneCount(k, w);
      AloneInCount(w, k);
      AloneMore(k, w);
    }
  }

  lemma AloneMore(k: nat, w: Throws)
    ensures |AloneBalls(k + 1, w)| == |AloneBalls(k, w)| + |AloneIn(w, k)|
  {
    assert AloneBalls(k + 1, w) == AloneBalls(k, w) + AloneIn(w, k);
    UnionSize(AloneBalls(k, w), AloneIn(w, k));
  }

  /** The balls that share their bin with another one. */
  ghost function SharingBalls(w: Throws): set<nat> {
    set i: nat | i < |w| && !Alone(w, i)
  }

  ghost function Indices(n: nat): (r: set<nat>)
    ensures |r| == n && forall i: nat :: i in r <==> i < n
  {
    if n == 0 then {} else Indices(n - 1) + {n - 1}
  }

  lemma SharingCount(n: nat, w: Throws)
    requires IsThrows(n, |w|, w)
    ensures |AloneBalls(n, w)| + |SharingBalls(w)| == |w|
  {
    assert Indices(|w|) == AloneBalls(n, w) + SharingBalls(w);
    UnionSize(AloneBalls(n, w), SharingBalls(w));
  }

  /** Decoding succeeds if at most t bins are hit. Then exactly the elements that share their bin are left, and
      otherwise all are. */
  lemma LeftByMeans(n: nat, t: nat, w: Throws)
    requires IsThrows(n, |w|, w)
    ensures LeftBy(n, t, w) == if |HitBins(n, w)| <= t then |SharingBalls(w)| else |w|
  {
    HitBinsCount(n, w);
    AloneCount(n, w);
    SharingCount(n, w);
  }

  // ---------- one round ----------

  /** What f makes of them. */
  function Then(n: nat, t: nat, f: nat -> real): Throws -> real {
    w => f(LeftBy(n, t, w))
  }

  function Fails(n: nat, t: nat): Throws -> real {
    Added(Constant(1.0), Scaled(-1.0, FewBins(n, t)))
  }

  lemma FailsMean(n: nat, t: nat, x: nat)
    requires 1 <= n
    ensures Mean(n, x, Fails(n, t)) == 1.0 - Mean(n, x, FewBins(n, t))
  {
    MeanAdd(n, x, Constant(1.0), Scaled(-1.0, FewBins(n, t)));
    MeanConst(n, x, 1.0);
    MeanScale(n, x, -1.0, FewBins(n, t));
  }

  /** A row of the transition matrix, without its case distinction. */
  lemma StepIs(n: nat, t: nat, i: nat, j: nat)
    requires 1 <= n
    ensures Step(n, t, i, j)
         == if j > i then 0.0 else Left(n, t, i, j) + (if j == i then Mean(n, i, Fails(n, t)) else 0.0)
  {
    FailsMean(n, t, i);
    LeftsTotal(n, t, i);
    assert SumBins(i + 1, Lefts(n, t, i)) == SumBins(i, Lefts(n, t, i)) + Left(n, t, i, i);
    if i == 0 {
      assert SumBins(0, Lefts(n, t, 0)) == 0.0;
    }
  }

  ghost function Weighted(n: nat, t: nat, i: nat, f: nat -> real): nat -> real
    requires 1 <= n
  {
    (l: nat) => Step(n, t, i, l) * f(l)
  }

  ghost function Terms(n: nat, t: nat, i: nat, f: nat -> real): nat -> Throws -> real {
    (l: nat) => Scaled(f(l), Decoded(n, t, i - l))
  }

  ghost function TermMeans(n: nat, t: nat, i: nat, f: nat -> real): nat -> real
    requires 1 <= n
  {
    (l: nat) => Mean(n, i, Terms(n, t, i, f)(l))
  }

  lemma AddTimes(a: real, b: real, c: real)
    ensures (a + b) * c == c * a + c * b
  {
  }

  lemma WeightedAt(n: nat, t: nat, i: nat, f: nat -> real, l: nat)
    requires 1 <= n && l <= i
    ensures Weighted(n, t, i, f)(l) == TermMeans(n, t, i, f)(l) + if l == i then f(i) * Mean(n, i, Fails(n, t)) else 0.0
  {
    assert Terms(n, t, i, f)(l) == Scaled(f(l), Decoded(n, t, i - l));
    MeanScale(n, i, f(l), Decoded(n, t, i - l));
    StepIs(n, t, i, l);
    var extra := if l == i then Mean(n, i, Fails(n, t)) else 0.0;
    AddTimes(Left(n, t, i, l), extra, f(l));
  }

  lemma LastExtra(k: nat, f: nat -> real, g: nat -> real, extra: real)
    requires (forall l: nat :: l < k ==> f(l) == g(l)) && f(k) == g(k) + extra
    ensures SumBins(k + 1, f) == SumBins(k + 1, g) + extra
  {
    SumBinsSame(k, f, g);
  }

  lemma WeightedSum(n: nat, t: nat, i: nat, f: nat -> real)
    requires 1 <= n
    ensures SumBins(i + 1, Weighted(n, t, i, f))
         == Mean(n, i, SumOf(i + 1, Terms(n, t, i, f))) + f(i) * Mean(n, i, Fails(n, t))
  {
    forall l: nat | l <= i
      ensures Weighted(n, t, i, f)(l)
           == TermMeans(n, t, i, f)(l) + if l == i then f(i) * Mean(n, i, Fails(n, t)) else 0.0
    {
      WeightedAt(n, t, i, f, l);
    }
    LastExtra(i, Weighted(n, t, i, f), TermMeans(n, t, i, f), f(i) * Mean(n, i, Fails(n, t)));
    TermSum(n, t, i, f);
  }

  lemma TermSum(n: nat, t: nat, i: nat, f: nat -> real)
    requires 1 <= n
    ensures SumBins(i + 1, TermMeans(n, t, i, f)) == Mean(n, i, SumOf(i + 1, Terms(n, t, i, f)))
  {
    var h := Terms(n, t, i, f);
    MeanSum(n, i, i + 1, h);
    SumBinsSame(i + 1, TermMeans(n, t, i, f), (l: nat) => Mean(n, i, h(l)));
  }

  /** Only the term for the number of elements that are left counts. */
  lemma OneTerm(n: nat, t: nat, i: nat, f: nat -> real, w: Throws)
    requires IsThrows(n, i, w)
    ensures BinsWith(n, w, 1) <= i
    ensures SumOf(i + 1, Terms(n, t, i, f))(w)
         == if n - BinsWith(n, w, 0) <= t then f(i - BinsWith(n, w, 1)) else 0.0
  {
    ThrowsPossible(n, i, w);
    var h := Terms(n, t, i, f);
    var at := i - BinsWith(n, w, 1);
    forall l: nat
      ensures h(l)(w) == if l == at && n - BinsWith(n, w, 0) <= t then f(l) else 0.0
    {
      assert h(l) == Scaled(f(l), Decoded(n, t, i - l));
    }
    SumOne(i + 1, (l: nat) => h(l)(w), at, if n - BinsWith(n, w, 0) <= t then f(at) else 0.0);
  }

  lemma TermsAt(n: nat, t: nat, i: nat, f: nat -> real, w: Throws)
    requires IsThrows(n, i, w)
    ensures Added(SumOf(i + 1, Terms(n, t, i, f)), Scaled(f(i), Fails(n, t)))(w) == Then(n, t, f)(w)
  {
    OneTerm(n, t, i, f, w);
    var fails := Fails(n, t)(w);
    assert Scaled(f(i), Fails(n, t))(w) == f(i) * fails;
    if n - BinsWith(n, w, 0) <= t {
      assert fails == 0.0;
      assert LeftBy(n, t, w) == i - BinsWith(n, w, 1);
    } else {
      assert fails == 1.0;
      assert LeftBy(n, t, w) == i;
    }
  }

  lemma WeightedTail(n: nat, t: nat, m: nat, i: nat, f: nat -> real)
    requires 1 <= n && i <= m
    ensures SumBins(m + 1, Weighted(n, t, i, f)) == SumBins(i + 1, Weighted(n, t, i, f))
  {
    forall l: nat | i + 1 <= l < m + 1
      ensures Weighted(n, t, i, f)(l) == 0.0
    {
      StepIs(n, t, i, l);
    }
    SumTail(i + 1, m + 1, Weighted(n, t, i, f));
  }

  /** One step of the chain is the mean over one round's throws. */
  lemma StepMean(n: nat, t: nat, m: nat, i: nat, f: nat -> real)
    requires 1 <= n && i <= m
    ensures SumBins(m + 1, Weighted(n, t, i, f)) == Mean(n, i, Then(n, t, f))
  {
    var sum, rest := SumOf(i + 1, Terms(n, t, i, f)), Scaled(f(i), Fails(n, t));
    WeightedTail(n, t, m, i, f);
    WeightedSum(n, t, i, f);
    MeanScale(n, i, f(i), Fails(n, t));
    MeanAdd(n, i, sum, rest);
    forall w | IsThrows(n, i, w)
      ensures Added(sum, rest)(w) == Then(n, t, f)(w)
    {
      TermsAt(n, t, i, f, w);
    }
    MeanSame(n, i, Added(sum, rest), Then(n, t, f));
  }

  // ---------- the first round taken off ----------

  ghost function Fronts(n: nat, t: nat, m: nat, k: nat, i: nat, j: nat): nat -> real
    requires 1 <= n && 1 <= k
  {
    (l: nat) => Step(n, t, i, l) * Power(n, t, m, k, l, j)
  }

  ghost function Triples(n: nat, t: nat, m: nat, k: nat, i: nat, j: nat): nat -> nat -> real
    requires 1 <= n && 1 <= k
  {
    (l: nat) => (q: nat) => Step(n, t, l, j) * (Step(n, t, i, q) * Power(n, t, m, k, q, l))
  }

  lemma ScaledSum(k: nat, c: real, f: nat -> real, g: nat -> real)
    requires forall l: nat :: l < k ==> g(l) == c * f(l)
    ensures SumBins(k, g) == c * SumBins(k, f)
  {
    SumBinsScale(k, c, f);
    SumBinsSame(k, g, (l: nat) => c * f(l));
  }

  lemma TimesSwap(a: real, b: real, c: real)
    ensures a * (b * c) == b * (c * a)
  {
  }

  lemma TripleRow(n: nat, t: nat, m: nat, k: nat, i: nat, j: nat, l: nat)
    requires 1 <= n && 1 <= k && FromFront(n, t, m, k, i, l)
    ensures RowSums(m + 1, Triples(n, t, m, k, i, j))(l) == Products(n, t, m, k + 1, i, j)(l)
  {
    ScaledSum(m + 1, Step(n, t, l, j), Fronts(n, t, m, k, i, l), Triples(n, t, m, k, i, j)(l));
  }

  lemma TripleTerm(n: nat, t: nat, m: nat, k: nat, i: nat, j: nat, q: nat, l: nat)
    requires 1 <= n && 1 <= k
    ensures Column(Triples(n, t, m, k, i, j), q)(l) == Step(n, t, i, q) * Products(n, t, m, k, q, j)(l)
  {
    TimesSwap(Step(n, t, l, j), Step(n, t, i, q), Power(n, t, m, k, q, l));
  }

  lemma TripleColumn(n: nat, t: nat, m: nat, k: nat, i: nat, j: nat, q: nat)
    requires 1 <= n && 1 <= k
    ensures ColumnSums(m + 1, Triples(n, t, m, k, i, j))(q) == Fronts(n, t, m, k + 1, i, j)(q)
  {
    var c := Step(n, t, i, q);
    forall l: nat
      ensures Column(Triples(n, t, m, k, i, j), q)(l) == c * Products(n, t, m, k, q, j)(l)
    {
      TripleTerm(n, t, m, k, i, j, q, l);
    }
    ScaledSum(m + 1, c, Products(n, t, m, k, q, j), Column(Triples(n, t, m, k, i, j), q));
  }

  ghost predicate FromFront(n: nat, t: nat, m: nat, k: nat, i: nat, j: nat)
    requires 1 <= n && 1 <= k
  {
    Power(n, t, m, k + 1, i, j) == SumBins(m + 1, Fronts(n, t, m, k, i, j))
  }

  lemma TripleSums(n: nat, t: nat, m: nat, k: nat, i: nat, j: nat)
    requires 1 <= n && 1 <= k
    requires forall l: nat :: FromFront(n, t, m, k, i, l)
    ensures SumBins(m + 1, Products(n, t, m, k + 1, i, j)) == SumBins(m + 1, Fronts(n, t, m, k + 1, i, j))
  {
    var f := Triples(n, t, m, k, i, j);
    var rows, columns := RowSums(m + 1, f), ColumnSums(m + 1, f);
    var products, fronts := Products(n, t, m, k + 1, i, j), Fronts(n, t, m, k + 1, i, j);
    forall l: nat
      ensures rows(l) == products(l) && columns(l) == fronts(l)
    {
      assert FromFront(n, t, m, k, i, l);
      TripleRow(n, t, m, k, i, j, l);
      TripleColumn(n, t, m, k, i, j, l);
    }
    SumBinsSame(m + 1, products, rows);
    SumSwap(m + 1, m + 1, f);
    SumBinsSame(m + 1, columns, fronts);
  }

  /** The powers of the matrix can be built from the front as well. */
  lemma {:induction false} PowerFront(n: nat, t: nat, m: nat, k: nat, i: nat, j: nat)
    requires 1 <= n && 1 <= k
    ensures Power(n, t, m, k + 1, i, j) == SumBins(m + 1, Fronts(n, t, m, k, i, j))
    decreases k
  {
    if k == 1 {
      SumBinsSame(m + 1, Products(n, t, m, 1, i, j), Fronts(n, t, m, 1, i, j));
    } else {
      var before := k - 1;
      forall l: nat
        ensures FromFront(n, t, m, before, i, l)
      {
        PowerFront(n, t, m, before, i, l);
      }
      TripleSums(n, t, m, before, i, j);
    }
  }

  /** The probability that i elements are all resolved after k rounds. */
  ghost function Resolved(n: nat, t: nat, m: nat, k: nat): nat -> real
    requires 1 <= n
  {
    (i: nat) => if k == 0 then (if i == 0 then 1.0 else 0.0) else Power(n, t, m, k, i, 0)
  }

  lemma ResolvedStep(n: nat, t: nat, m: nat, k: nat, i: nat)
    requires 1 <= n && i <= m
    ensures Resolved(n, t, m, k + 1)(i) == Mean(n, i, Then(n, t, Resolved(n, t, m, k)))
  {
    var f := Resolved(n, t, m, k);
    StepMean(n, t, m, i, f);
    if k == 0 {
      SumOne(m + 1, Weighted(n, t, i, f), 0, Step(n, t, i, 0));
    } else {
      PowerFront(n, t, m, k, i, 0);
      SumBinsSame(m + 1, Weighted(n, t, i, f), Fronts(n, t, m, k, i, 0));
    }
  }

  /** The probability that i elements are all resolved after k rounds, round by round: the first round's throws decide
      how many are left for the other rounds. */
  ghost function Chance(n: nat, t: nat, k: nat): nat -> real
    requires 1 <= n
  {
    if k == 0 then (i: nat) => if i == 0 then 1.0 else 0.0
    else
      var later := Chance(n, t, k - 1);
      (i: nat) => Mean(n, i, Then(n, t, later))
  }

  lemma {:induction false} ResolvedIsChance(n: nat, t: nat, m: nat, k: nat, i: nat)
    requires 1 <= n && i <= m
    ensures Resolved(n, t, m, k)(i) == Chance(n, t, k)(i)
    decreases k
  {
    if k == 0 {
    } else {
      var f, g := Resolved(n, t, m, k - 1), Chance(n, t, k - 1);
      ResolvedStep(n, t, m, k - 1, i);
      forall w | IsThrows(n, i, w)
        ensures Then(n, t, f)(w) == Then(n, t, g)(w)
      {
        ResolvedIsChance(n, t, m, k - 1, LeftBy(n, t, w));
      }
      MeanSame(n, i, Then(n, t, f), Then(n, t, g));
    }
  }

  /** The entries of the matrix powers are these probabilities. */
  lemma FailureIsChance(n: nat, t: nat, m: nat, k: nat, i: nat)
    requires 1 <= n && 1 <= k && i <= m
    ensures Failure(n, t, m, k, i) == 1.0 - Chance(n, t, k)(i)
  {
    ResolvedIsChance(n, t, m, k, i);
  }

  /** 1 if these throws leave nothing. */
  function NothingLeft(n: nat, t: nat): Throws -> real {
    w => if LeftBy(n, t, w) == 0 then 1.0 else 0.0
  }

  ghost function Complement(n: nat, t: nat, m: nat, k: nat): nat -> real
    requires 1 <= n && 1 <= k
  {
    (l: nat) => 1.0 - Failure(n, t, m, k, l)
  }

  /** What one round more does: its throws decide how many elements are left for the k rounds that follow. */
  lemma FailureStep(n: nat, t: nat, m: nat, k: nat, i: nat)
    requires 1 <= n && 1 <= k && i <= m
    ensures 1.0 - Failure(n, t, m, 1, i) == Mean(n, i, NothingLeft(n, t))
    ensures 1.0 - Failure(n, t, m, k + 1, i) == Mean(n, i, Then(n, t, Complement(n, t, m, k)))
  {
    ResolvedStep(n, t, m, 0, i);
    ResolvedStep(n, t, m, k, i);
    MeanSame(n, i, Then(n, t, Resolved(n, t, m, 0)), NothingLeft(n, t));
    MeanSame(n, i, Then(n, t, Resolved(n, t, m, k)), Then(n, t, Complement(n, t, m, k)));
  }

  // ---------- order ----------

  lemma MeanOrder(n: nat, x: nat, f: Throws -> real, g: Throws -> real)
    requires 1 <= n && forall w :: IsThrows(n, x, w) ==> f(w) <= g(w)
    ensures Mean(n, x, f) <= Mean(n, x, g)
  {
    MeanAdd(n, x, g, Scaled(-1.0, f));
    MeanScale(n, x, -1.0, f);
    MeanNonneg(n, x, Added(g, Scaled(-1.0, f)));
  }

  /** f does not grow up to m. */
  ghost predicate Falling(m: nat, f: nat -> real) {
    forall i: nat, j: nat :: i <= j <= m ==> f(j) <= f(i)
  }

  lemma {:induction false} FallingFar(m: nat, f: nat -> real, i: nat, j: nat)
    requires (forall l: nat :: l < m ==> f(l + 1) <= f(l)) && i <= j <= m
    ensures f(j) <= f(i)
    decreases j
  {
    if i == j {
    } else {
      FallingFar(m, f, i, j - 1);
      assert f(j - 1 + 1) <= f(j - 1);
    }
  }

  /** One more element leaves no fewer. */
  lemma OneMoreLeft(n: nat, t: nat, w: Throws, k: nat)
    requires IsThrows(n, |w|, w) && k < n
    ensures LeftBy(n, t, w) <= LeftBy(n, t, w + [k]) <= |w| + 1
  {
    ThrowsPossible(n, |w|, w);
    OneMoreBall(n, w, k, 0);
    OneMoreBall(n, w, k, 1);
  }

  lemma {:induction false} SumBinsBelow(n: nat, f: nat -> real, c: real)
    requires forall k: nat :: k < n ==> f(k) <= c
    ensures SumBins(n, f) <= c * (n as real)
  {
    if n == 0 {
    } else {
      SumBinsBelow(n - 1, f, c);
      OneMore(c, n - 1);
    }
  }

  lemma BelowOver(a: real, c: real, n: real)
    requires n > 0.0 && a <= c * n
    ensures a / n <= c
  {
    NonnegOver(c * n - a, n);
    AddOver(c * n, -1.0 * a, n);
    ScaleOver(-1.0, a, n);
    CancelOver(c, n);
  }

  lemma MeanFalls(n: nat, t: nat, m: nat, i: nat, f: nat -> real)
    requires 1 <= n && i + 1 <= m && Falling(m, f)
    ensures Mean(n, i + 1, Then(n, t, f)) <= Mean(n, i, Then(n, t, f))
  {
    var g := Then(n, t, f);
    forall w | IsThrows(n, i, w)
      ensures NextThrow(n, g)(w) <= g(w)
    {
      forall k: nat | k < n
        ensures After(w, g)(k) <= g(w)
      {
        OneMoreLeft(n, t, w, k);
      }
      SumBinsBelow(n, After(w, g), g(w));
      BelowOver(SumBins(n, After(w, g)), g(w), n as real);
    }
    MeanOrder(n, i, NextThrow(n, g), g);
  }

  /** The more elements, the less likely is success. */
  lemma {:induction false} ResolvedFalls(n: nat, t: nat, m: nat, k: nat)
    requires 1 <= n
    ensures Falling(m, Resolved(n, t, m, k))
  {
    var f := Resolved(n, t, m, k);
    if k == 0 {
    } else {
      ResolvedFalls(n, t, m, k - 1);
      forall i: nat | i < m
        ensures f(i + 1) <= f(i)
      {
        ResolvedStep(n, t, m, k - 1, i);
        ResolvedStep(n, t, m, k - 1, i + 1);
        MeanFalls(n, t, m, i, Resolved(n, t, m, k - 1));
      }
      forall i: nat, j: nat | i <= j <= m
        ensures f(j) <= f(i)
      {
        FallingFar(m, f, i, j);
      }
    }
  }

  lemma MoreLeft(n: nat, t: nat, u: nat, w: Throws)
    requires t <= u
    ensures LeftBy(n, u, w) <= LeftBy(n, t, w) <= |w|
  {
  }

  /** The larger the capacity, the more likely is success. */
  lemma {:induction false} ResolvedGrows(n: nat, t: nat, u: nat, m: nat, k: nat, i: nat)
    requires 1 <= n && t <= u && i <= m
    ensures Resolved(n, t, m, k)(i) <= Resolved(n, u, m, k)(i)
    decreases k
  {
    if k == 0 {
    } else {
      var f, g := Resolved(n, t, m, k - 1), Resolved(n, u, m, k - 1);
      ResolvedStep(n, t, m, k - 1, i);
      ResolvedStep(n, u, m, k - 1, i);
      ResolvedFalls(n, u, m, k - 1);
      forall w | IsThrows(n, i, w)
        ensures Then(n, t, f)(w) <= Then(n, u, g)(w)
      {
        MoreLeft(n, t, u, w);
        ResolvedGrows(n, t, u, m, k - 1, LeftBy(n, t, w));
      }
      MeanOrder(n, i, Then(n, t, f), Then(n, u, g));
    }
  }

  /** The entries of the multi-round matrix fall when the capacity grows and grow with the number of elements. */
  lemma FailureIsOrdered(n: nat, t: nat, u: nat, m: nat, k: nat, i: nat, j: nat)
    requires 1 <= n && 1 <= k && t <= u && i <= j <= m
    ensures Failure(n, u, m, k, i) <= Failure(n, t, m, k, i)
    ensures Failure(n, t, m, k, i) <= Failure(n, t, m, k, j)
  {
    ResolvedGrows(n, t, u, m, k, i);
    ResolvedFalls(n, t, m, k);
    assert Resolved(n, t, m, k)(j) <= Resolved(n, t, m, k)(i);
  }

  // ---------- the code ----------

  /** computeMultiRoundProbabilityMatrix: column k of row i is the probability of not being done with i
      elements after k rounds. (Column 0 stays zero.) */
  method ComputeMultiRoundProbabilityMatrix(m: nat, n: nat, t: nat, r: nat) returns (mr: array2<real>)
    requires 1 <= m < n < WORD && t <= n
    ensures mr.Length0 == m + 1 && mr.Length1 == r + 1
    ensures forall i: nat, k: nat :: i <= m && k <= r ==>
              mr[i, k] == if i == 0 || k == 0 then 0.0 else 1.0 - Chance(n, t, k)(i)
  {
    var m2d := ComputeTransitionProbabilityMatrix(m, n, t);
    var trans := Reform(m2d, m, n, t);
    var temp := trans;
    mr := new real[m + 1, r + 1]((_, _) => 0.0);
    var k := 0;
    while k < r
      invariant k <= r && IsPower(trans, n, t, m, 1) && IsPower(temp, n, t, m, k + 1) && temp != mr && trans != mr
      invariant forall i: nat, c: nat :: i <= m && c <= r ==>
        mr[i, c] == if i == 0 || c == 0 || c > k then 0.0 else Failure(n, t, m, c, i)
    {
      var i := 1;
      while i <= m
        invariant 1 <= i <= m + 1 && IsPower(trans, n, t, m, 1) && IsPower(temp, n, t, m, k + 1)
        invariant forall y: nat, c: nat :: y <= m && c <= r ==>
          mr[y, c] == if y == 0 || c == 0 || c > k + 1 || (c == k + 1 && y >= i) then 0.0 else Failure(n, t, m, c, y)
      {
        mr[i, k + 1] := 1.0 - temp[i, 0];
        i := i + 1;
      }
      temp := Multiply(temp, trans, n, t, m, k + 1);
      k := k + 1;
    }
    forall i: nat, k: nat | i <= m && 1 <= k <= r
      ensures Failure(n, t, m, k, i) == 1.0 - Chance(n, t, k)(i)
    {
      FailureIsChance(n, t, m, k, i);
    }
  }

  // ---------- the bound built from them ----------

  lemma {:induction false} SumBinsOrder(n: nat, f: nat -> real, g: nat -> real)
    requires forall k: nat :: k < n ==> f(k) <= g(k)
    ensures SumBins(n, f) <= SumBins(n, g)
  {
    if n == 0 {
    } else {
      SumBinsOrder(n - 1, f, g);
    }
  }

  lemma TimesOrder(p: real, a: real, b: real)
    requires 0.0 <= p && a <= b
    ensures p * a <= p * b
  {
  }

  /** Taking the row of the next number of elements errs on the safe side, whatever the weights p are. */
  lemma NextRowIsSafe(p: nat -> real, n: nat, t: nat, m: nat, k: nat, b: nat, own: nat -> real, next: nat -> real)
    requires 1 <= n && 1 <= k && b <= m && forall l: nat :: l < b ==> 0.0 <= p(l)
    requires forall l: nat :: l < b ==>
               own(l) == p(l) * Failure(n, t, m, k, l) && next(l) == p(l) * Failure(n, t, m, k, l + 1)
    ensures SumBins(b, own) <= SumBins(b, next)
  {
    forall l: nat | l < b
      ensures own(l) <= next(l)
    {
      FailureIsOrdered(n, t, t, m, k, l, l + 1);
      TimesOrder(p(l), Failure(n, t, m, k, l), Failure(n, t, m, k, l + 1));
    }
    SumBinsOrder(b, own, next);
  }
}
