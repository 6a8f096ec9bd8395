/**
 The search of `bestBchParam` for the cheapest code that reaches a target success probability.
 */
module ParamSearch {
  import opened Arithmetic
  import opened Bits

  const MAX_BALLS: nat := 200
  const M_MIN: nat := 6
  const M_MAX: nat := 14

  /** `p(m, t)` is the success probability the optimiser computes for field size m and capacity t. */
  type Success = (nat, nat) -> real

  /** More capacity never hurts. */
  ghost predicate Monotone(p: Success) {
    forall m: nat, t: nat, u: nat :: t <= u ==> p(m, t) <= p(m, u)
  }

  function Min(a: nat, b: nat): nat {
    if a <= b then a else b
  }

  /** The largest capacity tried for field size m; `five` is 5 * delta rounded up. */
  function Limit(m: nat, five: nat): nat
    requires 1 <= m
  {
    Min(MAX_BALLS, Min(Pow2(m) - 2, five))
  }

  function Cost(m: nat, t: nat): nat {
    Area(m, t)
  }

  /** The codes the search is about: t from m to the limit, and t = m in any case. */
  predicate Candidate(m: nat, t: nat, five: nat) {
    M_MIN <= m <= M_MAX && m <= t && (t == m || t <= Limit(m, five))
  }

  ghost predicate Feasible(p: Success, target: real, five: nat, m: nat, t: nat) {
    Candidate(m, t, five) && target <= p(m, t)
  }

  /** Field sizes from 6 to 14; capacities from the field size to 200, to 2^m - 2 and to `five`, and the first in any
      case. */
  lemma FeasibleIs(p: Success, target: real, five: nat, m: nat, t: nat)
    ensures Feasible(p, target, five, m, t)
            <==> 6 <= m <= 14 && m <= t && (t == m || (t <= 200 && t + 2 <= Pow2(m) && t <= five)) && target <= p(m, t)
  {
    if M_MIN <= m {
      Pow2Monotone(1, m);
    }
  }

  /** A cost is the number of bits of a sketch. */
  lemma CheaperBits(m: nat, t: nat, m': nat, t': nat)
    ensures Cost(m, t) <= Cost(m', t') <==> m * t <= m' * t'
  {
    AreaIsProduct(m, t);
    AreaIsProduct(m', t');
  }

  /** No capacity for this field size is feasible at a lower one. */
  ghost predicate Least(p: Success, target: real, five: nat, m: nat, t: nat) {
    Feasible(p, target, five, m, t) && forall u: nat :: Feasible(p, target, five, m, u) ==> t <= u
  }

  /** The bisection: p stays below the target at tMin and reaches it at tMax. */
  method Bisect(p: Success, target: real, m: nat, tMin0: nat, tMax0: nat) returns (t: nat)
    requires p(m, tMin0) < target <= p(m, tMax0) && tMin0 < tMax0
    ensures tMin0 < t <= tMax0 && p(m, t - 1) < target <= p(m, t)
  {
    var tMin, tMax := tMin0, tMax0;
    while tMax - tMin > 1
      invariant tMin0 <= tMin < tMax <= tMax0 && p(m, tMin) < target <= p(m, tMax)
      decreases tMax - tMin
    {
      var tMid := tMin + (tMax - tMin) / 2;
      if p(m, tMid) >= target {
        tMax := tMid;
      } else {
        tMin := tMid;
      }
    }
    // The source looks at tMin once more; it is below the target, so the answer is always tMax.
    assert p(m, tMin) < target;
    t := tMax;
  }

  /** One field size: the least feasible capacity, if there is one. */
  method SearchField(p: Success, target: real, five: nat, m: nat) returns (found: bool, t: nat)
    requires Monotone(p) && M_MIN <= m <= M_MAX
    ensures found ==> Least(p, target, five, m, t)
    ensures !found ==> forall u: nat :: !Feasible(p, target, five, m, u)
  {
    var tMin, tMax := m, Limit(m, five);
    if p(m, tMin) >= target {
      return true, tMin;
    } else if p(m, tMax) >= target {
      t := Bisect(p, target, m, tMin, tMax);
      return true, t;
    }
    return false, 0;
  }

  /** What the search has found among field sizes below k. */
  ghost predicate Best(p: Success, target: real, five: nat, k: nat, found: bool, m: nat, t: nat) {
    && (found ==> m < k && Feasible(p, target, five, m, t))
    && (found ==> forall m': nat, t': nat :: m' < k && Feasible(p, target, five, m', t') ==> Cost(m, t) <= Cost(m', t'))
    && (!found ==> forall m': nat, t': nat :: m' < k ==> !Feasible(p, target, five, m', t'))
  }

  lemma BestMore(p: Success, target: real, five: nat, k: nat, found: bool, m: nat, t: nat, now: bool, u: nat)
    requires Best(p, target, five, k, found, m, t) && M_MIN <= k <= M_MAX
    requires now ==> Least(p, target, five, k, u)
    requires !now ==> forall v: nat :: !Feasible(p, target, five, k, v)
    ensures var better := now && (!found || Cost(k, u) < Cost(m, t));
            Best(p, target, five, k + 1, found || now, if better then k else m, if better then u else t)
  {
    if now {
      forall t': nat | Feasible(p, target, five, k, t')
        ensures Cost(k, u) <= Cost(k, t')
      {
        AreaMonotone(k, u, t');
      }
    }
  }

  /** If success is monotone in the capacity, the result is a feasible code of least cost over all field sizes
      and capacities, or 1, 1 and probability -1 if no code is feasible. */
  method BestBchParam(p: Success, target: real, five: nat) returns (m: nat, t: nat, failureUb: real)
    requires Monotone(p)
    ensures (exists m': nat, t': nat :: Feasible(p, target, five, m', t')) ==>
              && Feasible(p, target, five, m, t) && failureUb == 1.0 - p(m, t)
              && forall m': nat, t': nat :: Feasible(p, target, five, m', t') ==> m * t <= m' * t'
    ensures !(exists m': nat, t': nat :: Feasible(p, target, five, m', t')) ==> m == t == 1 && failureUb == -1.0
  {
    m, t, failureUb := 1, 1, -1.0;
    var bestCost: int := -1;     // stands for the largest double
    var i := M_MIN;
    while i <= M_MAX
      invariant M_MIN <= i <= M_MAX + 1
      invariant Best(p, target, five, i, bestCost != -1, m, t)
      invariant bestCost != -1 ==> bestCost == Cost(m, t) && failureUb == 1.0 - p(m, t)
      invariant bestCost == -1 ==> m == t == 1 && failureUb == -1.0
    {
      var found, u := SearchField(p, target, five, i);
      BestMore(p, target, five, i, bestCost != -1, m, t, found, u);
      if found && (bestCost == -1 || Cost(i, u) < bestCost) {
        bestCost, m, t, failureUb := Cost(i, u), i, u, 1.0 - p(i, u);
      }
      i := i + 1;
    }
    forall m': nat, t': nat | Feasible(p, target, five, m', t')
      ensures Cost(m, t) <= Cost(m', t') <==> m * t <= m' * t'
    {
      CheaperBits(m, t, m', t');
    }
  }
}
