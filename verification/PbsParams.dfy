/**
 The probability matrices of the parameter optimiser: balls into bins, the transition matrix of a round and
 its powers, over real numbers.
 */
module PbsParams {
  import opened Arithmetic
  import opened BallsIntoBins

  /** Unsigned arithmetic wraps below zero. */
  function Wrapped(k: int): nat
    requires 0 <= k + WORD
  {
    if k >= 0 then k else k + WORD
  }

  lemma WrappedIs(k: int)
    requires 0 <= k + WORD && k < WORD
    ensures Wrapped(k) == k % 0x1_0000_0000_0000_0000
  {
  }

  /** What entry (a, b) of the x-th matrix should be: a bins are empty and b - 1 hold a single ball. */
  ghost function Entry(n: nat, x: nat, a: nat, b: nat): real
    requires 1 <= n
  {
    if b == 0 then 0.0 else P(n, x, a, b - 1)
  }

  /** `p * c / n`. */
  function Part(p: real, c: int, n: nat): real
    requires 1 <= n
  {
    (p * (c as real)) / n as real
  }

  lemma PartIs(p: real, c: int, n: nat)
    requires 1 <= n
    ensures Part(p, c, n) == (c as real / n as real) * p
  {
  }

  lemma PartOfZero(c: int, n: nat)
    requires 1 <= n
    ensures Part(0.0, c, n) == 0.0
  {
  }

  /** The wrapped factor only ever meets an entry that is zero. */
  lemma StayTerm(n: nat, x: nat, a: nat, b: nat)
    requires 1 <= b && a < n && b <= n < WORD
    ensures Part(Entry(n, x, a, b), Wrapped(n - a - b + 1), n) == Part(P(n, x, a, b - 1), n - a - (b - 1), n)
  {
    if n - a - b + 1 < 0 {
      ImpossibleIsZero(n, x, a, b - 1);
      PartOfZero(Wrapped(n - a - b + 1), n);
      PartOfZero(n - a - (b - 1), n);
    }
  }

  /** The three branches, by whether a neighbour is outside the matrix, all compute the recurrence. */
  lemma Branches(m: nat, n: nat, x: nat, a: nat, b: nat)
    requires 2 <= x <= m < n < WORD && a < n && 1 <= b <= x + 1
    ensures Entry(n, x, a, b)
         == (if b == 1 then 0.0 else Part(Entry(n, x - 1, a + 1, b - 1), a + 1, n))
          + (if b == m + 1 then 0.0 else Part(Entry(n, x - 1, a, b + 1), b, n))
          + Part(Entry(n, x - 1, a, b), Wrapped(n - a - b + 1), n)
  {
    LastBallRecurrence(n, x, a, b - 1);
    PartIs(P(n, x - 1, a + 1, b - 2), a + 1, n);
    PartIs(P(n, x - 1, a, b), b, n);
    PartIs(P(n, x - 1, a, b - 1), n - a - (b - 1), n);
    StayTerm(n, x - 1, a, b);
    if b == 1 {
      ImpossibleIsZero(n, x - 1, a + 1, -1);
      PartOfZero(a + 1, n);
    }
    if b == m + 1 {
      ImpossibleIsZero(n, x - 1, a, b);
      PartOfZero(b, n);
    }
  }

  /** Entries that the loops do not write are zero. */
  lemma OutsideRange(m: nat, n: nat, x: nat, a: nat, b: nat)
    requires 1 <= x <= m < n && a <= n && b <= m + 1 && !(n - m <= a < n && 1 <= b <= x + 1)
    ensures Entry(n, x, a, b) == 0.0
  {
    if b > 0 {
      ImpossibleIsZero(n, x, a, b - 1);
    }
  }

  lemma FirstBall(n: nat, a: nat, b: nat)
    requires 1 <= n && a <= n
    ensures Entry(n, 1, a, b) == if a == n - 1 && b == 2 then 1.0 else 0.0
  {
    if b > 0 {
      if a == n - 1 && b == 2 {
        forall w | IsThrows(n, 1, w)
          ensures Hit(n, n - 1, 1)(w) == Constant(1.0)(w)
        {
          ThrowsPossible(n, 1, w);
        }
        MeanSame(n, 1, Hit(n, n - 1, 1), Constant(1.0));
        MeanConst(n, 1, 1.0);
      } else {
        ImpossibleIsZero(n, 1, a, b - 1);
      }
    }
  }

  /** The x-th matrix is right. */
  ghost predicate LevelRight(m3d: array3<real>, n: nat, x: nat)
    requires 1 <= n
    reads m3d
  {
    x < m3d.Length0 && forall a: nat, b: nat :: a < m3d.Length1 && b < m3d.Length2 ==> m3d[x, a, b] == Entry(n, x, a, b)
  }

  ghost predicate Shaped(m3d: array3<real>, m: nat, n: nat) {
    m3d.Length0 == m + 1 && m3d.Length1 == n + 1 && m3d.Length2 == m + 2
  }

  /** The body of the loops. */
  method Cell(m3d: array3<real>, m: nat, n: nat, x: nat, a: nat, b: nat) returns (v: real)
    requires Shaped(m3d, m, n) && 2 <= x <= m < n < WORD && LevelRight(m3d, n, x - 1)
    requires n - m <= a < n && 1 <= b <= x + 1
    ensures v == Entry(n, x, a, b)
  {
    Branches(m, n, x, a, b);
    if b == 1 {
      v := Part(m3d[x - 1, a, b + 1], b, n) + Part(m3d[x - 1, a, b], Wrapped(n - a - b + 1), n);
    } else if b == m + 1 {
      v := Part(m3d[x - 1, a + 1, b - 1], a + 1, n) + Part(m3d[x - 1, a, b], Wrapped(n - a - b + 1), n);
    } else {
      v := Part(m3d[x - 1, a + 1, b - 1], a + 1, n) + Part(m3d[x - 1, a, b + 1], b, n)
         + Part(m3d[x - 1, a, b], Wrapped(n - a - b + 1), n);
    }
  }

  /** The part of a matrix that the loops have reached. */
  predicate Reached(m: nat, n: nat, x: nat, a: nat, b: nat, a0: nat, b0: nat) {
    n - m <= a < n && 1 <= b <= x + 1 && (a < a0 || (a == a0 && b < b0))
  }

  ghost predicate Progress(m3d: array3<real>, m: nat, n: nat, x: nat, a0: nat, b0: nat)
    requires 1 <= n && Shaped(m3d, m, n) && x <= m
    reads m3d
  {
    forall a: nat, b: nat :: a <= n && b <= m + 1 ==>
      m3d[x, a, b] == if Reached(m, n, x, a, b, a0, b0) then Entry(n, x, a, b) else 0.0
  }

  ghost predicate LaterZero(m3d: array3<real>, m: nat, n: nat, x: nat)
    requires Shaped(m3d, m, n)
    reads m3d
  {
    forall y: nat, a: nat, b: nat :: x < y <= m && a <= n && b <= m + 1 ==> m3d[y, a, b] == 0.0
  }

  ghost predicate EarlierRight(m3d: array3<real>, n: nat, x: nat)
    requires 1 <= n
    reads m3d
  {
    forall y: nat :: 1 <= y < x ==> LevelRight(m3d, n, y)
  }

  method FillRow(m3d: array3<real>, m: nat, n: nat, x: nat, a: nat)
    requires Shaped(m3d, m, n) && 2 <= x <= m < n < WORD && n - m <= a < n
    requires EarlierRight(m3d, n, x) && Progress(m3d, m, n, x, a, 1) && LaterZero(m3d, m, n, x)
    modifies m3d
    ensures EarlierRight(m3d, n, x) && Progress(m3d, m, n, x, a + 1, 1) && LaterZero(m3d, m, n, x)
  {
    var b := 1;
    while b <= x + 1
      invariant 1 <= b <= x + 2
      invariant EarlierRight(m3d, n, x) && Progress(m3d, m, n, x, a, b) && LaterZero(m3d, m, n, x)
    {
      var v := Cell(m3d, m, n, x, a, b);
      label before:
      m3d[x, a, b] := v;
      forall y: nat | 1 <= y < x
        ensures LevelRight(m3d, n, y)
      {
        assert old@before(LevelRight(m3d, n, y));
      }
      b := b + 1;
    }
  }

  method FillLevel(m3d: array3<real>, m: nat, n: nat, x: nat)
    requires Shaped(m3d, m, n) && 2 <= x <= m < n < WORD
    requires EarlierRight(m3d, n, x) && LaterZero(m3d, m, n, x - 1)
    modifies m3d
    ensures EarlierRight(m3d, n, x + 1) && LaterZero(m3d, m, n, x)
  {
    var a := n - m;
    while a < n
      invariant n - m <= a <= n
      invariant EarlierRight(m3d, n, x) && Progress(m3d, m, n, x, a, 1) && LaterZero(m3d, m, n, x)
    {
      FillRow(m3d, m, n, x, a);
      a := a + 1;
    }
    LevelDone(m3d, m, n, x);
  }

  lemma LevelDone(m3d: array3<real>, m: nat, n: nat, x: nat)
    requires Shaped(m3d, m, n) && 1 <= x <= m < n && Progress(m3d, m, n, x, n, 1)
    ensures LevelRight(m3d, n, x)
  {
    forall a: nat, b: nat | a < m3d.Length1 && b < m3d.Length2
      ensures m3d[x, a, b] == Entry(n, x, a, b)
    {
      if !Reached(m, n, x, a, b, n, 1) {
        OutsideRange(m, n, x, a, b);
      }
    }
  }

  /** computeProbabilityMatrix3D: all matrices are right, although only some rows are computed. */
  method ComputeProbabilityMatrix3D(m: nat, n: nat) returns (m3d: array3<real>)
    requires 1 <= m < n < WORD
    ensures Shaped(m3d, m, n) && forall x: nat :: 1 <= x <= m ==> LevelRight(m3d, n, x)
    ensures forall x: nat, a: nat, s: nat :: 1 <= x <= m && a <= n && s <= m ==> m3d[x, a, s + 1] == P(n, x, a, s)
  {
    m3d := new real[m + 1, n + 1, m + 2]((_, _, _) => 0.0);
    m3d[1, n - 1, 2] := 1.0;
    forall a: nat, b: nat | a < m3d.Length1 && b < m3d.Length2
      ensures m3d[1, a, b] == Entry(n, 1, a, b)
    {
      FirstBall(n, a, b);
    }
    var x := 2;
    while x <= m
      invariant 2 <= x <= m + 1
      invariant EarlierRight(m3d, n, x) && LaterZero(m3d, m, n, x - 1)
    {
      FillLevel(m3d, m, n, x);
      x := x + 1;
    }
    forall x: nat, a: nat, s: nat | 1 <= x <= m && a <= n && s <= m
      ensures m3d[x, a, s + 1] == P(n, x, a, s)
    {
      assert LevelRight(m3d, n, x);
    }
  }
}
