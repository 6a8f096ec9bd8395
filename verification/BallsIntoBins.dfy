/**
 Throwing balls into n bins: the probability that a given number of bins stays empty and a given number gets
 exactly one ball, defined as a mean over all sequences of throws.
 */
module BallsIntoBins {

  /** The bins hit by the balls, one after another. */
  type Throws = seq<nat>

  function SumBins(n: nat, f: nat -> real): real {
    if n == 0 then 0.0 else SumBins(n - 1, f) + f(n - 1)
  }

  /** g after one more throw. */
  function After(w: Throws, g: Throws -> real): nat -> real {
    (k: nat) => g(w + [k])
  }

  /** The mean over the bin of the next throw. */
  function NextThrow(n: nat, g: Throws -> real): Throws -> real
    requires 1 <= n
  {
    w => SumBins(n, After(w, g)) / (n as real)
  }

  /** The mean of g over all sequences of x throws into n bins. */
  ghost function Mean(n: nat, x: nat, g: Throws -> real): real
    requires 1 <= n
  {
    if x == 0 then g([]) else Mean(n, x - 1, NextThrow(n, g))
  }

  ghost predicate IsThrows(n: nat, x: nat, w: Throws) {
    |w| == x && forall i :: 0 <= i < x ==> w[i] < n
  }

  function Load(w: Throws, k: nat): nat {
    if w == [] then 0 else Load(w[..|w| - 1], k) + (if w[|w| - 1] == k then 1 else 0)
  }

  /** How many of n bins hold exactly t balls. */
  function BinsWith(n: nat, w: Throws, t: nat): nat {
    if n == 0 then 0 else BinsWith(n - 1, w, t) + (if Load(w, n - 1) == t then 1 else 0)
  }

  /** 1 if a bins are empty and s bins hold a single ball. */
  function Hit(n: nat, a: int, s: int): Throws -> real {
    w => if BinsWith(n, w, 0) == a && BinsWith(n, w, 1) == s then 1.0 else 0.0
  }

  /** The probability of that, for x balls. */
  ghost function P(n: nat, x: nat, a: int, s: int): real
    requires 1 <= n
  {
    Mean(n, x, Hit(n, a, s))
  }

  // ---------- sums and means ----------

  lemma {:induction false} SumBinsSame(n: nat, f: nat -> real, g: nat -> real)
    requires forall k: nat :: k < n ==> f(k) == g(k)
    ensures SumBins(n, f) == SumBins(n, g)
  {
    if n == 0 {
    } else {
      SumBinsSame(n - 1, f, g);
    }
  }

  lemma {:induction false} SumBinsAdd(n: nat, f: nat -> real, g: nat -> real)
    ensures SumBins(n, (k: nat) => f(k) + g(k)) == SumBins(n, f) + SumBins(n, g)
  {
    if n == 0 {
    } else {
      SumBinsAdd(n - 1, f, g);
    }
  }

  lemma {:induction false} SumBinsScale(n: nat, c: real, f: nat -> real)
    ensures SumBins(n, (k: nat) => c * f(k)) == c * SumBins(n, f)
  {
    if n == 0 {
    } else {
      SumBinsScale(n - 1, c, f);
      Distribute(c, SumBins(n - 1, f), f(n - 1));
    }
  }

  lemma OneMore(v: real, k: int)
    ensures v * ((k + 1) as real) == v * (k as real) + v
  {
  }

  lemma Distribute(c: real, a: real, b: real)
    ensures c * (a + b) == c * a + c * b
  {
  }

  lemma {:induction false} SumBinsNonneg(n: nat, f: nat -> real)
    requires forall k: nat :: k < n ==> 0.0 <= f(k)
    ensures 0.0 <= SumBins(n, f)
  {
    if n == 0 {
    } else {
      SumBinsNonneg(n - 1, f);
    }
  }

  lemma {:induction false} SumBinsConst(n: nat, c: real)
    ensures SumBins(n, _ => c) == c * (n as real)
  {
    if n == 0 {
    } else {
      SumBinsConst(n - 1, c);
      OneMore(c, n - 1);
    }
  }

  lemma {:induction false} MeanSame(n: nat, x: nat, f: Throws -> real, g: Throws -> real)
    requires 1 <= n && forall w :: IsThrows(n, x, w) ==> f(w) == g(w)
    ensures Mean(n, x, f) == Mean(n, x, g)
  {
    if x == 0 {
      assert IsThrows(n, 0, []);
    } else {
      forall w | IsThrows(n, x - 1, w)
        ensures NextThrow(n, f)(w) == NextThrow(n, g)(w)
      {
        forall k: nat | k < n
          ensures f(w + [k]) == g(w + [k])
        {
          assert IsThrows(n, x, w + [k]);
        }
        SumBinsSame(n, After(w, f), After(w, g));
      }
      MeanSame(n, x - 1, NextThrow(n, f), NextThrow(n, g));
    }
  }

  function Added(f: Throws -> real, g: Throws -> real): Throws -> real {
    w => f(w) + g(w)
  }

  function Scaled(c: real, f: Throws -> real): Throws -> real {
    w => c * f(w)
  }

  lemma {:induction false} MeanAdd(n: nat, x: nat, f: Throws -> real, g: Throws -> real)
    requires 1 <= n
    ensures Mean(n, x, Added(f, g)) == Mean(n, x, f) + Mean(n, x, g)
  {
    if x == 0 {
    } else {
      forall w: Throws
        ensures NextThrow(n, Added(f, g))(w) == Added(NextThrow(n, f), NextThrow(n, g))(w)
      {
        var f', g' := After(w, f), After(w, g);
        SumBinsAdd(n, f', g');
        SumBinsSame(n, After(w, Added(f, g)), (k: nat) => f'(k) + g'(k));
        AddOver(SumBins(n, f'), SumBins(n, g'), n as real);
      }
      MeanSame(n, x - 1, NextThrow(n, Added(f, g)), Added(NextThrow(n, f), NextThrow(n, g)));
      MeanAdd(n, x - 1, NextThrow(n, f), NextThrow(n, g));
    }
  }

  lemma AddOver(a: real, b: real, n: real)
    requires n > 0.0
    ensures (a + b) / n == a / n + b / n
  {
  }

  lemma NextScaled(n: nat, c: real, f: Throws -> real, w: Throws)
    requires 1 <= n
    ensures NextThrow(n, Scaled(c, f))(w) == Scaled(c, NextThrow(n, f))(w)
  {
    var f' := After(w, f);
    SumBinsScale(n, c, f');
    SumBinsSame(n, After(w, Scaled(c, f)), (k: nat) => c * f'(k));
    ScaleOver(c, SumBins(n, f'), n as real);
  }

  lemma {:induction false} MeanScale(n: nat, x: nat, c: real, f: Throws -> real)
    requires 1 <= n
    ensures Mean(n, x, Scaled(c, f)) == c * Mean(n, x, f)
  {
    if x == 0 {
    } else {
      forall w: Throws
        ensures NextThrow(n, Scaled(c, f))(w) == Scaled(c, NextThrow(n, f))(w)
      {
        NextScaled(n, c, f, w);
      }
      MeanSame(n, x - 1, NextThrow(n, Scaled(c, f)), Scaled(c, NextThrow(n, f)));
      MeanScale(n, x - 1, c, NextThrow(n, f));
    }
  }

  lemma ScaleOver(c: real, a: real, n: real)
    requires n > 0.0
    ensures (c * a) / n == c * (a / n)
  {
  }

  function Constant(c: real): Throws -> real {
    _ => c
  }

  lemma {:induction false} MeanConst(n: nat, x: nat, c: real)
    requires 1 <= n
    ensures Mean(n, x, Constant(c)) == c
  {
    if x == 0 {
    } else {
      forall w: Throws
        ensures NextThrow(n, Constant(c))(w) == Constant(c)(w)
      {
        SumBinsConst(n, c);
        SumBinsSame(n, After(w, Constant(c)), _ => c);
        CancelOver(c, n as real);
      }
      MeanSame(n, x - 1, NextThrow(n, Constant(c)), Constant(c));
      MeanConst(n, x - 1, c);
    }
  }

  lemma CancelOver(c: real, n: real)
    requires n > 0.0
    ensures (c * n) / n == c
  {
  }

  lemma {:induction false} MeanNonneg(n: nat, x: nat, f: Throws -> real)
    requires 1 <= n && forall w :: IsThrows(n, x, w) ==> 0.0 <= f(w)
    ensures 0.0 <= Mean(n, x, f)
  {
    if x == 0 {
      assert IsThrows(n, 0, []);
    } else {
      forall w | IsThrows(n, x - 1, w)
        ensures 0.0 <= NextThrow(n, f)(w)
      {
        forall k: nat | k < n
          ensures 0.0 <= f(w + [k])
        {
          assert IsThrows(n, x, w + [k]);
        }
        SumBinsNonneg(n, After(w, f));
        NonnegOver(SumBins(n, After(w, f)), n as real);
      }
      MeanNonneg(n, x - 1, NextThrow(n, f));
    }
  }

  lemma NonnegOver(a: real, n: real)
    requires n > 0.0 && 0.0 <= a
    ensures 0.0 <= a / n
  {
  }

  // ---------- loads ----------

  lemma {:induction false} OneMoreBall(n: nat, w: Throws, k: nat, t: nat)
    ensures BinsWith(n, w + [k], t)
         == BinsWith(n, w, t)
            + (if k < n then (if Load(w, k) + 1 == t then 1 else 0) - (if Load(w, k) == t then 1 else 0) else 0)
  {
    if n == 0 {
    } else {
      OneMoreBall(n - 1, w, k, t);
      assert (w + [k])[..|w|] == w;
    }
  }

  lemma {:induction false} LoadsAddUp(n: nat, w: Throws)
    ensures BinsWith(n, w, 0) + BinsWith(n, w, 1) <= n
  {
    if n == 0 {
    } else {
      LoadsAddUp(n - 1, w);
    }
  }

  /** v added up k times. */
  function Multiple(v: real, k: nat): real {
    if k == 0 then 0.0 else Multiple(v, k - 1) + v
  }

  lemma {:induction false} MultipleOfUnit(v: real, k: nat)
    requires v == 0.0 || v == 1.0
    ensures Multiple(v, k) == if v == 1.0 then k as real else 0.0
  {
    if k == 0 {
    } else {
      MultipleOfUnit(v, k - 1);
    }
  }

  /** A sum over bins by their load. */
  lemma {:induction false} SumByLoad(n: nat, w: Throws, f: nat -> real, v0: real, v1: real, v2: real)
    requires forall k: nat :: k < n ==> f(k) == if Load(w, k) == 0 then v0 else if Load(w, k) == 1 then v1 else v2
    ensures BinsWith(n, w, 0) + BinsWith(n, w, 1) <= n
    ensures SumBins(n, f) == Multiple(v0, BinsWith(n, w, 0)) + Multiple(v1, BinsWith(n, w, 1))
                           + Multiple(v2, n - BinsWith(n, w, 0) - BinsWith(n, w, 1))
  {
    if n == 0 {
    } else {
      SumByLoad(n - 1, w, f, v0, v1, v2);
    }
  }

  // ---------- one more ball ----------

  /** What the last ball can have hit: an empty bin, a bin with one ball, or a fuller one. */
  ghost function LastBall(n: nat, a: nat, s: nat): Throws -> real
    requires 1 <= n
  {
    Added(Added(Scaled((a + 1) as real / n as real, Hit(n, a + 1, s - 1)),
                Scaled((s + 1) as real / n as real, Hit(n, a, s + 1))),
          Scaled((n - a - s) as real / n as real, Hit(n, a, s)))
  }

  function Choose(v: real, c: real): real {
    if v == 1.0 then c else 0.0
  }

  lemma LastBallSum(n: nat, a: nat, s: nat, w: Throws)
    ensures SumBins(n, After(w, Hit(n, a, s)))
         == Choose(Hit(n, a + 1, s - 1)(w), (a + 1) as real) + Choose(Hit(n, a, s + 1)(w), (s + 1) as real)
          + Choose(Hit(n, a, s)(w), (n - a - s) as real)
  {
    var e: int, q: int := BinsWith(n, w, 0), BinsWith(n, w, 1);
    var v0 := Hit(n, a + 1, s - 1)(w);
    var v1 := Hit(n, a, s + 1)(w);
    var v2 := Hit(n, a, s)(w);
    var f := After(w, Hit(n, a, s));
    forall k: nat | k < n
      ensures f(k) == if Load(w, k) == 0 then v0 else if Load(w, k) == 1 then v1 else v2
    {
      OneMoreBall(n, w, k, 0);
      OneMoreBall(n, w, k, 1);
    }
    SumByLoad(n, w, f, v0, v1, v2);
    MultipleOfUnit(v0, e);
    MultipleOfUnit(v1, q);
    MultipleOfUnit(v2, n - e - q);
  }

  lemma LastBallAt(n: nat, a: nat, s: nat, w: Throws)
    requires 1 <= n
    ensures NextThrow(n, Hit(n, a, s))(w) == LastBall(n, a, s)(w)
  {
    LastBallSum(n, a, s, w);
    ChoicesOver(Hit(n, a + 1, s - 1)(w), Hit(n, a, s + 1)(w), Hit(n, a, s)(w),
                (a + 1) as real, (s + 1) as real, (n - a - s) as real, n as real);
  }

  lemma ChoicesOver(v0: real, v1: real, v2: real, c0: real, c1: real, c2: real, n: real)
    requires n > 0.0 && (v0 == 0.0 || v0 == 1.0) && (v1 == 0.0 || v1 == 1.0) && (v2 == 0.0 || v2 == 1.0)
    ensures (Choose(v0, c0) + Choose(v1, c1) + Choose(v2, c2)) / n == (c0 / n) * v0 + (c1 / n) * v1 + (c2 / n) * v2
  {
    AddOver(Choose(v0, c0) + Choose(v1, c1), Choose(v2, c2), n);
    AddOver(Choose(v0, c0), Choose(v1, c1), n);
    UnitOver(v0, c0, n);
    UnitOver(v1, c1, n);
    UnitOver(v2, c2, n);
  }

  lemma UnitOver(v: real, c: real, n: real)
    requires n > 0.0 && (v == 0.0 || v == 1.0)
    ensures (c / n) * v == Choose(v, c) / n
  {
  }

  /** The recurrence. */
  lemma LastBallRecurrence(n: nat, x: nat, a: nat, s: nat)
    requires 1 <= n && 1 <= x
    ensures P(n, x, a, s) == ((a + 1) as real / n as real) * P(n, x - 1, a + 1, s - 1)
                           + ((s + 1) as real / n as real) * P(n, x - 1, a, s + 1)
                           + ((n - a - s) as real / n as real) * P(n, x - 1, a, s)
  {
    var ca, cs, cn := (a + 1) as real / n as real, (s + 1) as real / n as real, (n - a - s) as real / n as real;
    var f, g, h := Hit(n, a + 1, s - 1), Hit(n, a, s + 1), Hit(n, a, s);
    forall w: Throws
      ensures NextThrow(n, Hit(n, a, s))(w) == LastBall(n, a, s)(w)
    {
      LastBallAt(n, a, s, w);
    }
    MeanSame(n, x - 1, NextThrow(n, h), LastBall(n, a, s));
    MeanAdd(n, x - 1, Added(Scaled(ca, f), Scaled(cs, g)), Scaled(cn, h));
    MeanAdd(n, x - 1, Scaled(ca, f), Scaled(cs, g));
    MeanScale(n, x - 1, ca, f);
    MeanScale(n, x - 1, cs, g);
    MeanScale(n, x - 1, cn, h);
  }

  // ---------- which counts are possible ----------

  /** After x balls: the bins with two balls or more hold all balls that are not alone. */
  predicate Possible(n: nat, x: nat, a: int, s: int) {
    var full := n - a - s;
    0 <= a && 0 <= s && 0 <= full && 2 * full <= x - s && (full == 0 ==> x == s)
  }

  lemma {:induction false} NoBalls(n: nat, t: nat)
    ensures BinsWith(n, [], t) == if t == 0 then n else 0
  {
    if n == 0 {
    } else {
      NoBalls(n - 1, t);
    }
  }

  lemma {:induction false} FullBin(n: nat, w: Throws, k: nat)
    requires k < n && Load(w, k) >= 2
    ensures BinsWith(n, w, 0) + BinsWith(n, w, 1) < n
  {
    LoadsAddUp(n - 1, w);
    if k == n - 1 {
    } else {
      FullBin(n - 1, w, k);
    }
  }

  lemma {:induction false} ThrowsPossible(n: nat, x: nat, w: Throws)
    requires IsThrows(n, x, w)
    ensures Possible(n, x, BinsWith(n, w, 0), BinsWith(n, w, 1))
  {
    if x == 0 {
      NoBalls(n, 0);
      NoBalls(n, 1);
    } else {
      var init, k := w[..x - 1], w[x - 1];
      ThrowsPossible(n, x - 1, init);
      assert w == init + [k];
      OneMoreBall(n, init, k, 0);
      OneMoreBall(n, init, k, 1);
      if Load(init, k) >= 2 {
        FullBin(n, init, k);
      }
    }
  }

  lemma NonnegP(n: nat, x: nat, a: int, s: int)
    requires 1 <= n
    ensures 0.0 <= P(n, x, a, s)
  {
    MeanNonneg(n, x, Hit(n, a, s));
  }

  lemma ImpossibleIsZero(n: nat, x: nat, a: int, s: int)
    requires 1 <= n && !Possible(n, x, a, s)
    ensures P(n, x, a, s) == 0.0
  {
    forall w | IsThrows(n, x, w)
      ensures Hit(n, a, s)(w) == Constant(0.0)(w)
    {
      ThrowsPossible(n, x, w);
    }
    MeanSame(n, x, Hit(n, a, s), Constant(0.0));
    MeanConst(n, x, 0.0);
  }

  lemma PositiveTerm(c: real, p: real)
    ensures c > 0.0 && p > 0.0 ==> c * p > 0.0
    ensures c >= 0.0 && p >= 0.0 ==> c * p >= 0.0
    ensures p == 0.0 ==> c * p == 0.0
  {
  }

  lemma Shares(n: nat, a: nat, s: nat)
    requires 1 <= n
    ensures (a + 1) as real / n as real > 0.0 && (s + 1) as real / n as real > 0.0
    ensures (n - a - s > 0 ==> (n - a - s) as real / n as real > 0.0)
            && (n - a - s == 0 ==> (n - a - s) as real / n as real == 0.0)
  {
  }

  lemma TermsNonneg(n: nat, x: nat, a: nat, s: nat)
    requires 1 <= n
    ensures ((a + 1) as real / n as real) * P(n, x, a + 1, s - 1) >= 0.0
    ensures ((s + 1) as real / n as real) * P(n, x, a, s + 1) >= 0.0
    ensures ((n - a - s) as real / n as real) * P(n, x, a, s) >= 0.0
  {
    Shares(n, a, s);
    NonnegP(n, x, a + 1, s - 1);
    NonnegP(n, x, a, s + 1);
    NonnegP(n, x, a, s);
    PositiveTerm((a + 1) as real / n as real, P(n, x, a + 1, s - 1));
    PositiveTerm((s + 1) as real / n as real, P(n, x, a, s + 1));
    if n - a - s < 0 {
      ImpossibleIsZero(n, x, a, s);
    }
    PositiveTerm((n - a - s) as real / n as real, P(n, x, a, s));
  }

  /** Exactly the possible counts have positive probability. */
  lemma {:induction false} PositiveIffPossible(n: nat, x: nat, a: int, s: int)
    requires 1 <= n
    ensures P(n, x, a, s) > 0.0 <==> Possible(n, x, a, s)
    decreases x
  {
    if !Possible(n, x, a, s) {
      ImpossibleIsZero(n, x, a, s);
    } else if x == 0 {
      NoBalls(n, 0);
      NoBalls(n, 1);
    } else {
      LastBallRecurrence(n, x, a, s);
      TermsNonneg(n, x - 1, a, s);
      Shares(n, a, s);
      if s >= 1 {
        PositiveIffPossible(n, x - 1, a + 1, s - 1);
        PositiveTerm((a + 1) as real / n as real, P(n, x - 1, a + 1, s - 1));
      } else if n - a >= 2 || x == 2 {
        PositiveIffPossible(n, x - 1, a, s + 1);
        PositiveTerm((s + 1) as real / n as real, P(n, x - 1, a, s + 1));
      } else {
        PositiveIffPossible(n, x - 1, a, s);
        PositiveTerm((n - a - s) as real / n as real, P(n, x - 1, a, s));
      }
    }
  }

  // ---------- sums of probabilities ----------

  function SumOf(k: nat, h: nat -> Throws -> real): Throws -> real {
    w => SumBins(k, (i: nat) => h(i)(w))
  }

  /** A sum of means is the mean of the sum. */
  lemma {:induction false} MeanSum(n: nat, x: nat, k: nat, h: nat -> Throws -> real)
    requires 1 <= n
    ensures SumBins(k, (i: nat) => Mean(n, x, h(i))) == Mean(n, x, SumOf(k, h))
  {
    if k == 0 {
      MeanSame(n, x, SumOf(0, h), Constant(0.0));
      MeanConst(n, x, 0.0);
    } else {
      MeanSum(n, x, k - 1, h);
      MeanAdd(n, x, SumOf(k - 1, h), h(k - 1));
      forall w: Throws
        ensures SumOf(k, h)(w) == Added(SumOf(k - 1, h), h(k - 1))(w)
      {
        SumBinsSame(k - 1, (i: nat) => h(i)(w), (i: nat) => h(i)(w));
      }
      MeanSame(n, x, SumOf(k, h), Added(SumOf(k - 1, h), h(k - 1)));
    }
  }

  /** A sum with at most one term that counts. */
  lemma {:induction false} SumOne(k: nat, f: nat -> real, at: int, v: real)
    requires forall i: nat :: i < k ==> f(i) == if i == at then v else 0.0
    ensures SumBins(k, f) == if 0 <= at < k then v else 0.0
  {
    if k == 0 {
    } else {
      SumOne(k - 1, f, at, v);
    }
  }
}
