/**
 Folding the lists recovered in all rounds into one difference: `setDifference` of bit_utils.h.
 */
module SetDifference {
  import opened Parity
  import opened PbsSpec
  import opened PbsRounds
  import opened PbsTheorems

  /** An insertion-ordered set made from a list: first occurrences, in order. */
  function Dedup(s: seq<Key>): seq<Key> {
    if s == [] then []
    else
      var rest := Dedup(s[..|s| - 1]);
      if s[|s| - 1] in rest then rest else rest + [s[|s| - 1]]
  }

  function NotIn(s: seq<Key>): Key -> bool {
    x => x !in s
  }

  function Minus(a: seq<Key>, b: seq<Key>): seq<Key> {
    Filter(a, NotIn(b))
  }

  /** What `setDifference(a, b)` leaves in a. */
  function Toggled(a: seq<Key>, b: seq<Key>): seq<Key> {
    Minus(Dedup(a), Dedup(b)) + Minus(Dedup(b), Dedup(a))
  }

  /** The rounds folded one by one. */
  function Fold(rounds: seq<seq<Key>>): seq<Key> {
    if rounds == [] then [] else Toggled(Fold(rounds[..|rounds| - 1]), rounds[|rounds| - 1])
  }

  // ---------- the code ----------

  lemma TakeNext<T>(s: seq<T>, i: nat)
    requires i < |s|
    ensures s[..i + 1][..i] == s[..i] && s[..i + 1][i] == s[i] && |s[..i + 1]| == i + 1
  {
  }

  /** Inserting a list into an empty ordered set. */
  method OrderedSet(list: seq<Key>) returns (s: seq<Key>)
    ensures s == Dedup(list)
  {
    s := [];
    var i := 0;
    while i < |list|
      invariant i <= |list| && s == Dedup(list[..i])
    {
      TakeNext(list, i);
      if list[i] !in s {
        s := s + [list[i]];
      }
      i := i + 1;
    }
    assert list[..i] == list;
  }

  /** One of the two loops: push the items of `from` that are not in `other`. */
  method PushMissing(result: seq<Key>, from: seq<Key>, other: seq<Key>) returns (r: seq<Key>)
    ensures r == result + Minus(from, other)
  {
    r := result;
    var i := 0;
    while i < |from|
      invariant i <= |from| && r == result + Minus(from[..i], other)
    {
      TakeNext(from, i);
      if from[i] !in other {
        r := r + [from[i]];
      }
      i := i + 1;
    }
    assert from[..i] == from;
  }

  method SetDifferenceOf(sa: seq<Key>, sb: seq<Key>) returns (r: seq<Key>)
    ensures r == Toggled(sa, sb)
  {
    var s1 := OrderedSet(sa);
    var s2 := OrderedSet(sb);
    r := PushMissing([], s1, s2);
    r := PushMissing(r, s2, s1);
  }

  method FoldRounds(rounds: seq<seq<Key>>) returns (all: seq<Key>)
    ensures all == Fold(rounds)
  {
    all := [];
    var i := 0;
    while i < |rounds|
      invariant i <= |rounds| && all == Fold(rounds[..i])
    {
      TakeNext(rounds, i);
      all := SetDifferenceOf(all, rounds[i]);
      i := i + 1;
    }
    assert rounds[..i] == rounds;
  }

  // ---------- what it computes ----------

  lemma AddOne(s: seq<Key>, x: Key)
    ensures ToSet(s + [x]) == ToSet(s) + {x} && (x in s <==> x in ToSet(s))
    ensures Distinct(s) && x !in s ==> Distinct(s + [x])
  {
  }

  lemma {:induction false} DedupFacts(s: seq<Key>)
    ensures Distinct(Dedup(s)) && ToSet(Dedup(s)) == ToSet(s)
  {
    if s == [] {
    } else {
      DedupFacts(s[..|s| - 1]);
      var last := s[|s| - 1];
      assert s == s[..|s| - 1] + [last];
      AddOne(s[..|s| - 1], last);
      AddOne(Dedup(s[..|s| - 1]), last);
    }
  }

  lemma {:induction false} MinusFacts(a: seq<Key>, b: seq<Key>)
    requires Distinct(a)
    ensures Distinct(Minus(a, b)) && ToSet(Minus(a, b)) == ToSet(a) - ToSet(b)
  {
    if a == [] {
    } else {
      var init, last := a[..|a| - 1], a[|a| - 1];
      MinusFacts(init, b);
      assert a == init + [last];
      AddOne(init, last);
      AddOne(Minus(init, b), last);
      assert last in b <==> last in ToSet(b);
    }
  }

  /** `setDifference` is the symmetric difference of the elements of the two lists, each once. */
  lemma ToggledIsSymDiff(a: seq<Key>, b: seq<Key>)
    ensures Distinct(Toggled(a, b)) && ToSet(Toggled(a, b)) == SymDiff(ToSet(a), ToSet(b))
  {
    DedupFacts(a);
    DedupFacts(b);
    var l, r := Minus(Dedup(a), Dedup(b)), Minus(Dedup(b), Dedup(a));
    MinusFacts(Dedup(a), Dedup(b));
    MinusFacts(Dedup(b), Dedup(a));
    assert forall x :: x in l ==> x in ToSet(l);
    assert forall x :: x in r ==> x in ToSet(r);
    DistinctConcat(l, r);
    assert ToSet(l + r) == ToSet(l) + ToSet(r);
  }

  /** The keys that a round's list repeats an even number of times: folding keeps them, XOR does not. */
  ghost function Repeated(s: seq<Key>): set<Key> {
    ToSet(s) - Odd(s)
  }

  ghost function AllRepeated(rounds: seq<seq<Key>>): set<Key> {
    if rounds == [] then {} else SymDiff(AllRepeated(rounds[..|rounds| - 1]), Repeated(rounds[|rounds| - 1]))
  }

  lemma OddMembers(s: seq<Key>)
    ensures Odd(s) <= ToSet(s) && ToSet(s) == SymDiff(Odd(s), Repeated(s))
  {
  }

  lemma SymDiffSwap(a: set<Key>, b: set<Key>, c: set<Key>, d: set<Key>)
    ensures SymDiff(SymDiff(a, b), SymDiff(c, d)) == SymDiff(SymDiff(a, c), SymDiff(b, d))
  {
  }

  /** Folding gives the parity set of all rounds, up to the keys that some list repeats. */
  lemma {:induction false} FoldIsParity(rounds: seq<seq<Key>>)
    ensures Distinct(Fold(rounds)) && ToSet(Fold(rounds)) == SymDiff(Odd(Flatten(rounds)), AllRepeated(rounds))
  {
    if rounds == [] {
    } else {
      var init, last := rounds[..|rounds| - 1], rounds[|rounds| - 1];
      FoldIsParity(init);
      ToggledIsSymDiff(Fold(init), last);
      OddConcat(Flatten(init), last);
      OddMembers(last);
      SymDiffSwap(Odd(Flatten(init)), AllRepeated(init), Odd(last), Repeated(last));
    }
  }

  lemma {:induction false} NothingRepeated(rounds: seq<seq<Key>>)
    requires forall i :: 0 <= i < |rounds| ==> Distinct(rounds[i])
    ensures AllRepeated(rounds) == {}
  {
    if rounds == [] {
    } else {
      NothingRepeated(rounds[..|rounds| - 1]);
      assert Distinct(rounds[|rounds| - 1]);
      OddDistinct(rounds[|rounds| - 1]);
    }
  }

  /** When no groups are left, folding the recovered lists gives exactly the symmetric difference of the two
      sets if and only if the dropped leftovers and the repeated keys cancel. */
  lemma FoldRecoversDifference(p: Params, alice: seq<Key>, bob: seq<Key>, msgs: seq<DecodingMessage>)
    requires IsRun(p, Start(p, alice, bob), msgs) && Run(p, Start(p, alice, bob), msgs).alice.groups == []
    requires Distinct(alice) && Distinct(bob)
    ensures var st := Start(p, alice, bob);
            var rounds := Run(p, st, msgs).recovered;
            ToSet(Fold(rounds)) == SymDiff(ToSet(alice), ToSet(bob))
            <==> BigSymDiff(AllDropped(p, st, msgs)) == AllRepeated(rounds)
  {
    var st := Start(p, alice, bob);
    var end := Run(p, st, msgs);
    StartEverything(p, alice, bob);
    RunKeepsInvariant(p, st, msgs);
    RunConserves(p, st, msgs);
    assert end.alice.groups + end.bob.groups + end.recovered == end.recovered;
    FoldIsParity(end.recovered);
    OddDistinct(alice);
    OddDistinct(bob);
    SameDifference(SymDiff(ToSet(alice), ToSet(bob)), Odd(Flatten(end.recovered)),
                   BigSymDiff(AllDropped(p, st, msgs)), AllRepeated(end.recovered));
  }

  lemma SameDifference(s: set<Key>, t: set<Key>, d: set<Key>, r: set<Key>)
    requires s == SymDiff(t, d)
    ensures SymDiff(t, r) == s <==> d == r
  {
    if SymDiff(t, r) == s {
      forall x: Key
        ensures x in d <==> x in r
      {
        assert x in SymDiff(t, r) <==> x in SymDiff(t, d);
      }
    }
  }

  /** If no leftover of a finished group has XOR zero, folding gives the difference if and only if no list repeats
      a key, or the repetitions cancel. */
  lemma LosslessRunFolds(p: Params, alice: seq<Key>, bob: seq<Key>, msgs: seq<DecodingMessage>)
    requires IsRun(p, Start(p, alice, bob), msgs) && Run(p, Start(p, alice, bob), msgs).alice.groups == []
    requires Distinct(alice) && Distinct(bob)
    requires var dropped := AllDropped(p, Start(p, alice, bob), msgs);
             forall i :: 0 <= i < |dropped| && dropped[i] != {} ==> XorSet(dropped[i]) != ZERO
    ensures var rounds := Run(p, Start(p, alice, bob), msgs).recovered;
            ToSet(Fold(rounds)) == SymDiff(ToSet(alice), ToSet(bob)) <==> AllRepeated(rounds) == {}
  {
    var st := Start(p, alice, bob);
    StartEverything(p, alice, bob);
    RunConserves(p, st, msgs);
    BigSymDiffEmpty(AllDropped(p, st, msgs));
    FoldRecoversDifference(p, alice, bob, msgs);
  }

  /** The case the protocol is made for: no decoding fails, decoders name no bin twice, and no leftover of a
      finished group has XOR zero. Then folding gives the difference, each key once. */
  lemma CleanRunFolds(p: Params, alice: seq<Key>, bob: seq<Key>, msgs: seq<DecodingMessage>)
    requires IsRun(p, Start(p, alice, bob), msgs) && Run(p, Start(p, alice, bob), msgs).alice.groups == []
    requires Distinct(alice) && Distinct(bob) && NeverSplits(msgs)
    requires forall i :: 0 <= i < |msgs| ==> WellSized(msgs[i]) && BinsDistinct(msgs[i])
    requires var dropped := AllDropped(p, Start(p, alice, bob), msgs);
             forall i :: 0 <= i < |dropped| && dropped[i] != {} ==> XorSet(dropped[i]) != ZERO
    ensures var all := Fold(Run(p, Start(p, alice, bob), msgs).recovered);
            Distinct(all) && ToSet(all) == SymDiff(ToSet(alice), ToSet(bob))
  {
    var st := Start(p, alice, bob);
    StartEverything(p, alice, bob);
    RunDistinct(p, st, msgs);
    NothingRepeated(Run(p, st, msgs).recovered);
    LosslessRunFolds(p, alice, bob, msgs);
    FoldIsParity(Run(p, st, msgs).recovered);
  }

  /** A list that names a key twice: in the XOR sense nothing, but folding keeps the key. */
  lemma RepeatedKeyIsKept(x: Key)
    ensures Fold([[x, x]]) == [x] && Odd(Flatten([[x, x]])) == {}
  {
    var rounds, list := [[x, x]], [x, x];
    assert rounds[..0] == [];
    assert list[..1] == [x] && [x][..0] == [];
    assert Dedup([x]) == [x];
    assert Dedup(list) == [x];
    var none: seq<Key> := [];
    assert Minus([x], none) == Minus(none, none) + [x];
    assert Fold(rounds) == [x];
    assert Flatten(rounds) == list;
    assert Times([x], x) == 1;
    assert Times(list, x) == 2;
    forall y | y in list
      ensures y == x
    {
    }
  }
}
