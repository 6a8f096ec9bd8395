/**
 What the rounds are for: recovering the symmetric difference of two key lists.
 */
module PbsTheorems {
  import opened Arithmetic
  import opened Parity
  import opened PbsSpec
  import opened PbsRounds

  // ---------- the first state ----------

  function GroupIs(p: Params, g: nat): Key -> bool {
    e => GroupId(p, e) == g
  }

  /** The groups after adding `keys` one by one to an empty sketch. */
  function InitialSide(p: Params, keys: seq<Key>): (s: Side)
    ensures |s.groups| == |s.home| == p.numGroups
  {
    Side(seq(p.numGroups, g requires 0 <= g < p.numGroups => Filter(keys, GroupIs(p, g))),
         seq(p.numGroups, g requires 0 <= g < p.numGroups => g), 0)
  }

  function Start(p: Params, alice: seq<Key>, bob: seq<Key>): Pair {
    Pair(InitialSide(p, alice), InitialSide(p, bob), [])
  }

  lemma InitialAtHome(p: Params, keys: seq<Key>)
    ensures AtHome(p, InitialSide(p, keys))
  {
    forall g | 0 <= g < p.numGroups
      ensures forall e :: e in InitialSide(p, keys).groups[g] ==> GroupId(p, e) == g
    {
      FilterMembers(keys, GroupIs(p, g));
    }
  }

  lemma {:induction false} InitialOcc(p: Params, keys: seq<Key>, k: nat, x: Key)
    requires k <= p.numGroups
    ensures Occ(InitialSide(p, keys).groups[..k], x) == if GroupId(p, x) < k then Times(keys, x) else 0
  {
    var groups := InitialSide(p, keys).groups;
    if k == 0 {
    } else {
      InitialOcc(p, keys, k - 1, x);
      assert groups[..k] == groups[..k - 1] + [groups[k - 1]];
      OccSnoc(groups[..k - 1], groups[k - 1], x);
      FilterTimes(keys, GroupIs(p, k - 1), x);
    }
  }

  lemma StartEverything(p: Params, alice: seq<Key>, bob: seq<Key>)
    ensures Inv(p, Start(p, alice, bob))
    ensures Everything(Start(p, alice, bob)) == SymDiff(Odd(alice), Odd(bob))
  {
    InitialAtHome(p, alice);
    InitialAtHome(p, bob);
    var st := Start(p, alice, bob);
    forall x: Key
      ensures x in Everything(st) <==> x in SymDiff(Odd(alice), Odd(bob))
    {
      var total := EverythingOcc(st, x);
      assert st.alice.groups[..p.numGroups] == st.alice.groups && st.bob.groups[..p.numGroups] == st.bob.groups;
      InitialOcc(p, alice, p.numGroups, x);
      InitialOcc(p, bob, p.numGroups, x);
      OddTimes(alice, x);
      OddTimes(bob, x);
      ParitySum(total, Times(alice, x), Times(bob, x), 0);
    }
  }

  // ---------- recovery ----------

  /** When no groups are left, the recovered lists add up to the symmetric difference exactly if the
      leftovers of finished groups cancel; they do if no nonempty leftover has XOR zero. */
  lemma RunRecoversDifference(p: Params, alice: seq<Key>, bob: seq<Key>, msgs: seq<DecodingMessage>)
    requires IsRun(p, Start(p, alice, bob), msgs)
    requires Run(p, Start(p, alice, bob), msgs).alice.groups == []
    ensures var recovered := Odd(Flatten(Run(p, Start(p, alice, bob), msgs).recovered));
            var dropped := AllDropped(p, Start(p, alice, bob), msgs);
            && (recovered == SymDiff(Odd(alice), Odd(bob)) <==> BigSymDiff(dropped) == {})
            && ((forall i :: 0 <= i < |dropped| && dropped[i] != {} ==> XorSet(dropped[i]) != ZERO)
                ==> recovered == SymDiff(Odd(alice), Odd(bob)))
  {
    var st := Start(p, alice, bob);
    var end := Run(p, st, msgs);
    var dropped := AllDropped(p, st, msgs);
    StartEverything(p, alice, bob);
    RunKeepsInvariant(p, st, msgs);
    RunConserves(p, st, msgs);
    assert end.alice.groups + end.bob.groups + end.recovered == end.recovered;
    CancelSymDiff(SymDiff(Odd(alice), Odd(bob)), Everything(end), BigSymDiff(dropped));
    if forall i :: 0 <= i < |dropped| && dropped[i] != {} ==> XorSet(dropped[i]) != ZERO {
      BigSymDiffEmpty(dropped);
    }
  }

  lemma CancelSymDiff(s: set<Key>, t: set<Key>, d: set<Key>)
    requires s == SymDiff(t, d)
    ensures t == s <==> d == {}
  {
    if d != {} {
      var x :| x in d;
      SymDiffMember(t, d, x);
    }
  }

  // ---------- one round, one group ----------

  ghost function Residual(st: Pair, g: nat): set<Key>
    requires g < |st.alice.groups| == |st.bob.groups|
  {
    SymDiff(Odd(st.alice.groups[g]), Odd(st.bob.groups[g]))
  }

  ghost function InBinSet(p: Params, s: set<Key>, round: nat, b: nat): set<Key> {
    set x | x in s && BinId(p, x, round) == b
  }

  /** The merged parity bitmap of group g. */
  function Merged(p: Params, st: Pair, g: nat): set<nat>
    requires g < |st.alice.groups| == |st.bob.groups|
  {
    SymDiff(OddBins(p, st.bob.groups[g], st.bob.round), OddBins(p, st.alice.groups[g], st.alice.round))
  }

  lemma ToggleSize(s: set<Key>, x: Key)
    ensures |SymDiff(s, {x})| == if x in s then |s| - 1 else |s| + 1
  {
    if x in s {
      assert SymDiff(s, {x}) == s - {x};
    } else {
      assert SymDiff(s, {x}) == s + {x};
    }
  }

  /** A list is its parity set and a number of pairs. */
  lemma OddSize(s: seq<Key>) returns (pairs: nat)
    ensures |s| == |Odd(s)| + 2 * pairs
  {
    if s == [] {
      pairs := 0;
    } else {
      var k := |s| - 1;
      pairs := OddSize(s[..k]);
      OddSnoc(s[..k], s[k]);
      assert s == s[..k] + [s[k]];
      ToggleSize(Odd(s[..k]), s[k]);
      if s[k] in Odd(s[..k]) {
        pairs := pairs + 1;
      }
    }
  }

  lemma InBinResidual(p: Params, a: seq<Key>, b: seq<Key>, round: nat, bin: nat)
    ensures Odd(InBin(p, b, round, bin) + InBin(p, a, round, bin)) == InBinSet(p, SymDiff(Odd(a), Odd(b)), round, bin)
  {
    OddFilter(a, BinIs(p, round, bin));
    OddFilter(b, BinIs(p, round, bin));
    OddConcat(InBin(p, b, round, bin), InBin(p, a, round, bin));
  }

  /** The merged bitmap marks exactly the bins with an odd number of residual keys, and the two XORs of
      such a bin give the XOR of those keys. */
  lemma BinFacts(p: Params, a: seq<Key>, b: seq<Key>, round: nat, bin: nat)
    requires 1 <= bin < p.n
    ensures var left := InBinSet(p, SymDiff(Odd(a), Odd(b)), round, bin);
            && (bin in SymDiff(OddBins(p, b, round), OddBins(p, a, round)) <==> |left| % 2 == 1)
            && Xor(BinXor(p, b, round, bin), BinXor(p, a, round, bin)) == XorSet(left)
  {
    var ia, ib := InBin(p, a, round, bin), InBin(p, b, round, bin);
    InBinResidual(p, a, b, round, bin);
    var pairs := OddSize(ib + ia);
    assert bin in OddBins(p, a, round) <==> |ia| % 2 == 1;
    assert bin in OddBins(p, b, round) <==> |ib| % 2 == 1;
    ParitySum(|ib + ia|, |ia|, |ib|, 0);
    ParitySum(|InBinSet(p, SymDiff(Odd(a), Odd(b)), round, bin)|, |ib + ia|, 0, pairs);
    XorOdd(ib + ia);
    XorSeqConcat(ib, ia);
  }

  ghost predicate Passes(p: Params, home: nat, round: nat, bin: nat, e: Key) {
    BinId(p, e, round) == bin && GroupId(p, e) == home
  }

  lemma RecoverMembers(p: Params, home: nat, round: nat, bins: seq<nat>, theirs: seq<Key>, mine: seq<Key>)
    requires |bins| == |theirs|
    ensures forall i :: 0 <= i < |bins|
                        && Passes(p, home, round, bins[i], Xor(theirs[i], BinXor(p, mine, round, bins[i]))) ==>
              Xor(theirs[i], BinXor(p, mine, round, bins[i])) in Recover(p, home, round, bins, theirs, mine)
    ensures forall e :: e in Recover(p, home, round, bins, theirs, mine) ==>
                          exists i :: 0 <= i < |bins| && e == Xor(theirs[i], BinXor(p, mine, round, bins[i]))
  {
  }

  /** Group g was decoded, and correctly. (Guaranteed when at most t bins differ.) */
  ghost predicate DecodedRight(p: Params, st: Pair, msg: DecodingMessage, g: nat)
    requires LockStep(st) && Answers(st, msg) && g < |st.alice.groups|
  {
    0 <= msg.counts[g] && Distinct(Bins(msg, g)) && ToSet(Bins(msg, g)) == Merged(p, st, g)
  }

  /** Each reported bin yields the XOR of the residual keys in it. */
  lemma CandidateAt(p: Params, st: Pair, msg: DecodingMessage, g: nat, i: nat)
    requires Inv(p, st) && Answers(st, msg) && g < |st.alice.groups| && DecodedRight(p, st, msg, g)
    requires i < |Bins(msg, g)|
    ensures Bins(msg, g)[i] in Merged(p, st, g)
    ensures Xor(Theirs(ReplyTo(p, st, msg), g)[i], BinXor(p, st.alice.groups[g], st.alice.round, Bins(msg, g)[i]))
         == XorSet(InBinSet(p, Residual(st, g), st.alice.round, Bins(msg, g)[i]))
  {
    assert Bins(msg, g)[i] in ToSet(Bins(msg, g));
    ReplyAligned(p, st.bob, msg, g);
    BinFacts(p, st.alice.groups[g], st.bob.groups[g], st.alice.round, Bins(msg, g)[i]);
  }

  lemma XorSetOne(e: Key)
    ensures XorSet({e}) == e
  {
    XorSetRemove({e}, e);
    assert {e} - {e} == {};
    XorCommutes(ZERO, e);
    XorZero(e);
  }

  lemma ResidualAtHome(p: Params, st: Pair, g: nat, e: Key)
    requires Inv(p, st) && g < |st.alice.groups| && e in Residual(st, g)
    ensures GroupId(p, e) == st.alice.home[g]
  {
  }

  lemma ResidualOf(st: Pair, g: nat)
    requires g < |st.alice.groups| == |st.bob.groups| && st.bob.groups[g] == [] && Distinct(st.alice.groups[g])
    ensures Residual(st, g) == ToSet(st.alice.groups[g])
  {
    OddDistinct(st.alice.groups[g]);
    assert Odd([]) == {};
  }

  lemma RecoverOne(p: Params, home: nat, round: nat, bins: seq<nat>, theirs: seq<Key>, mine: seq<Key>)
    requires |bins| == |theirs| == 1
    requires Passes(p, home, round, bins[0], Xor(theirs[0], BinXor(p, mine, round, bins[0])))
    ensures Recover(p, home, round, bins, theirs, mine) == [Xor(theirs[0], BinXor(p, mine, round, bins[0]))]
  {
    assert Recover(p, home, round, bins[..0], theirs[..0], mine) == [];
  }

  lemma OnlyBin(bins: seq<nat>, b: nat)
    requires Distinct(bins) && ToSet(bins) == {b}
    ensures bins == [b]
  {
    SizeOfDistinct(bins);
    assert bins[0] in ToSet(bins);
  }

  /** The XOR of the keys in the only bin that differs is recovered if it hashes back, whether or not it is one of
      them. */
  lemma OneBinRecovers(p: Params, st: Pair, msg: DecodingMessage, g: nat, b: nat, x: Key)
    requires Inv(p, st) && Answers(st, msg) && g < |st.alice.groups| && DecodedRight(p, st, msg, g)
    requires Merged(p, st, g) == {b} && XorSet(InBinSet(p, Residual(st, g), st.alice.round, b)) == x
    requires Passes(p, st.alice.home[g], st.alice.round, b, x)
    ensures Recs(p, st.alice, ReplyTo(p, st, msg))[g] == [x]
  {
    OnlyBin(Bins(msg, g), b);
    CandidateAt(p, st, msg, g, 0);
    RecoverOne(p, st.alice.home[g], st.alice.round, Bins(msg, g), Theirs(ReplyTo(p, st, msg), g), st.alice.groups[g]);
  }

  /** After that the checksum tells what is left. */
  lemma OneKeyLeaves(p: Params, st: Pair, msg: DecodingMessage, g: nat, x: Key)
    requires Inv(p, st) && Answers(st, msg) && g < |st.alice.groups| && 0 <= msg.counts[g]
    requires Recs(p, st.alice, ReplyTo(p, st, msg))[g] == [x]
    ensures Fates(p, st.alice, ReplyTo(p, st, msg))[g]
         == if XorSet(SymDiff(Residual(st, g), {x})) == ZERO then Finished else Carried
  {
    OddSnoc(st.alice.groups[g] + st.bob.groups[g], x);
    OddConcat(st.alice.groups[g], st.bob.groups[g]);
    assert Leftover(p, st, msg, g) == SymDiff(Residual(st, g), {x});
    LeftoverXorsToZero(p, st, msg, g);
    var y := ReplyTo(p, st, msg);
    assert Fates(p, st.alice, y)[g] == if GroupDone(p, st.alice, y, g) then Finished else Carried;
  }

  /** A residual key alone in its bin is recovered. */
  lemma AloneIsRecovered(p: Params, st: Pair, msg: DecodingMessage, g: nat, e: Key)
    requires Inv(p, st) && Answers(st, msg) && g < |st.alice.groups| && DecodedRight(p, st, msg, g)
    requires e in Residual(st, g)
    requires InBinSet(p, Residual(st, g), st.alice.round, BinId(p, e, st.alice.round)) == {e}
    ensures e in Recs(p, st.alice, ReplyTo(p, st, msg))[g]
  {
    var y, r := ReplyTo(p, st, msg), st.alice.round;
    var b := BinId(p, e, r);
    BinFacts(p, st.alice.groups[g], st.bob.groups[g], r, b);
    assert b in ToSet(Bins(msg, g));
    var i :| 0 <= i < |Bins(msg, g)| && Bins(msg, g)[i] == b;
    CandidateAt(p, st, msg, g, i);
    XorSetOne(e);
    ResidualAtHome(p, st, g, e);
    RecoverMembers(p, st.alice.home[g], r, Bins(msg, g), Theirs(y, g), st.alice.groups[g]);
    assert Passes(p, st.alice.home[g], r, Bins(msg, g)[i],
                  Xor(Theirs(y, g)[i], BinXor(p, st.alice.groups[g], r, Bins(msg, g)[i])));
  }

  /** The ideal case: all residual keys are in different bins. */
  ghost predicate Ideal(p: Params, st: Pair, g: nat)
    requires g < |st.alice.groups| == |st.bob.groups|
  {
    forall e, f :: e in Residual(st, g) && f in Residual(st, g) && e != f
                   ==> BinId(p, e, st.alice.round) != BinId(p, f, st.alice.round)
  }

  lemma IdealBin(p: Params, st: Pair, g: nat, e: Key)
    requires g < |st.alice.groups| == |st.bob.groups| && Ideal(p, st, g) && e in Residual(st, g)
    ensures InBinSet(p, Residual(st, g), st.alice.round, BinId(p, e, st.alice.round)) == {e}
  {
  }

  /** ... and then nothing else is recovered. */
  lemma IdealCandidate(p: Params, st: Pair, msg: DecodingMessage, g: nat, i: nat)
    requires Inv(p, st) && Answers(st, msg) && g < |st.alice.groups| && DecodedRight(p, st, msg, g)
    requires Ideal(p, st, g) && i < |Bins(msg, g)|
    ensures Xor(Theirs(ReplyTo(p, st, msg), g)[i],
                BinXor(p, st.alice.groups[g], st.alice.round, Bins(msg, g)[i])) in Residual(st, g)
  {
    var bin := Bins(msg, g)[i];
    CandidateAt(p, st, msg, g, i);
    BinFacts(p, st.alice.groups[g], st.bob.groups[g], st.alice.round, bin);
    var f := OddMember(InBinSet(p, Residual(st, g), st.alice.round, bin));
    IdealBin(p, st, g, f);
    XorSetOne(f);
  }

  lemma OddMember(s: set<Key>) returns (f: Key)
    requires |s| % 2 == 1
    ensures f in s
  {
    f :| f in s;
  }

  lemma IdealRecovers(p: Params, st: Pair, msg: DecodingMessage, g: nat)
    requires Inv(p, st) && Answers(st, msg) && g < |st.alice.groups| && DecodedRight(p, st, msg, g)
    requires Ideal(p, st, g)
    ensures ToSet(Recs(p, st.alice, ReplyTo(p, st, msg))[g]) == Residual(st, g)
  {
    var y, r := ReplyTo(p, st, msg), st.alice.round;
    var rec, bins := Recs(p, st.alice, y)[g], Bins(msg, g);
    forall e | e in Residual(st, g)
      ensures e in rec
    {
      IdealBin(p, st, g, e);
      AloneIsRecovered(p, st, msg, g, e);
    }
    RecoverMembers(p, st.alice.home[g], r, bins, Theirs(y, g), st.alice.groups[g]);
    forall i | 0 <= i < |bins|
      ensures Xor(Theirs(y, g)[i], BinXor(p, st.alice.groups[g], r, bins[i])) in Residual(st, g)
    {
      IdealCandidate(p, st, msg, g, i);
    }
  }

  /** One-round exactness: an ideal, correctly decoded group yields exactly its residual, without
      repetition, is finished, and leaves nothing behind. */
  lemma IdealGroupFinishes(p: Params, st: Pair, msg: DecodingMessage, g: nat)
    requires Inv(p, st) && Answers(st, msg) && g < |st.alice.groups| && DecodedRight(p, st, msg, g)
    requires Ideal(p, st, g)
    ensures var rec := Recs(p, st.alice, ReplyTo(p, st, msg))[g];
            Distinct(rec) && ToSet(rec) == Residual(st, g)
    ensures Fates(p, st.alice, ReplyTo(p, st, msg))[g] == Finished
    ensures Leftover(p, st, msg, g) == {}
  {
    var y := ReplyTo(p, st, msg);
    var a, b, rec := st.alice.groups[g], st.bob.groups[g], Recs(p, st.alice, y)[g];
    IdealRecovers(p, st, msg, g);
    RecoverDistinct(p, st.alice.home[g], st.alice.round, Bins(msg, g), Theirs(y, g), a);
    OddDistinct(rec);
    assert Odd(rec) == Residual(st, g);
    OddConcat(a + b, rec);
    OddConcat(a, b);
    assert Leftover(p, st, msg, g) == SymDiff(Residual(st, g), Residual(st, g)) == {};
    LeftoverXorsToZero(p, st, msg, g);
  }

  lemma SelectNone(fates: seq<Fate>, f: Fate)
    requires forall i :: 0 <= i < |fates| ==> fates[i] != f
    ensures Select(fates, f) == []
  {
  }

  /** If every group is ideal and correctly decoded, one round finishes the protocol without loss. */
  lemma IdealRoundCompletes(p: Params, st: Pair, msg: DecodingMessage)
    requires Inv(p, st) && Answers(st, msg)
    requires forall g :: 0 <= g < |st.alice.groups| ==> DecodedRight(p, st, msg, g) && Ideal(p, st, g)
    ensures Next(p, st, msg).alice.groups == []
    ensures Odd(Flatten(Next(p, st, msg).recovered)) == Everything(st)
  {
    var y := ReplyTo(p, st, msg);
    var fates := Fates(p, st.alice, y);
    forall g | 0 <= g < |fates|
      ensures fates[g] == Finished && Leftover(p, st, msg, g) == {}
    {
      IdealGroupFinishes(p, st, msg, g);
    }
    SelectNone(fates, Split);
    SelectNone(fates, Carried);
    var next := Next(p, st, msg);
    NextAtHome(p, st, msg);
    BigSymDiffEmpty(Dropped(p, st, msg));
    RoundConserves(p, st, msg);
    assert next.alice.groups + next.bob.groups + next.recovered == next.recovered;
  }

  // ---------- repetitions ----------

  lemma DistinctConcat<T(!new)>(s: seq<T>, t: seq<T>)
    requires Distinct(s) && Distinct(t)
    requires forall e :: e in s ==> e !in t
    ensures Distinct(s + t)
  {
    forall i, j | 0 <= i < j < |s + t|
      ensures (s + t)[i] != (s + t)[j]
    {
      if i < |s| <= j {
        assert s[i] in s && t[j - |s|] in t;
      }
    }
  }

  lemma {:induction false} FlattenDistinct(lists: seq<seq<Key>>, p: Params, home: seq<nat>)
    requires |lists| == |home| && Distinct(home)
    requires forall g :: 0 <= g < |lists| ==> Distinct(lists[g])
    requires forall g, e :: 0 <= g < |lists| && e in lists[g] ==> GroupId(p, e) == home[g]
    ensures Distinct(Flatten(lists))
    ensures forall e :: e in Flatten(lists) ==> GroupId(p, e) in home
  {
    if lists == [] {
    } else {
      var k := |lists| - 1;
      FlattenDistinct(lists[..k], p, home[..k]);
      forall e | e in Flatten(lists[..k])
        ensures e !in lists[k]
      {
        assert GroupId(p, e) in home[..k];
      }
      DistinctConcat(Flatten(lists[..k]), lists[k]);
    }
  }

  ghost predicate BinsDistinct(msg: DecodingMessage)
    requires WellSized(msg)
  {
    forall g :: 0 <= g < |msg.counts| ==> Distinct(Bins(msg, g))
  }

  /** As long as no two live groups share a home, no key is recovered twice in a round. */
  lemma RoundDistinct(p: Params, st: Pair, msg: DecodingMessage)
    requires Inv(p, st) && Answers(st, msg) && BinsDistinct(msg) && Distinct(st.alice.home)
    ensures Distinct(Flatten(Recs(p, st.alice, ReplyTo(p, st, msg))))
  {
    var y := ReplyTo(p, st, msg);
    forall g | 0 <= g < |st.alice.groups|
      ensures Distinct(Recs(p, st.alice, y)[g])
      ensures forall e :: e in Recs(p, st.alice, y)[g] ==> GroupId(p, e) == st.alice.home[g]
    {
      RecoverDistinct(p, st.alice.home[g], st.alice.round, Bins(msg, g), Theirs(y, g), st.alice.groups[g]);
      RecoverFacts(p, st.alice.home[g], st.alice.round, Bins(msg, g), Theirs(y, g), st.alice.groups[g]);
    }
    FlattenDistinct(Recs(p, st.alice, y), p, st.alice.home);
  }

  lemma PickDistinct<T(!new)>(s: seq<T>, ids: seq<nat>)
    requires Below(ids, |s|) && Increasing(ids) && Distinct(s)
    ensures Distinct(Pick(s, ids))
  {
  }

  /** Homes are shared only through splits. */
  lemma HomesStayDistinct(p: Params, st: Pair, msg: DecodingMessage)
    requires Inv(p, st) && Answers(st, msg) && Distinct(st.alice.home)
    requires forall g :: 0 <= g < |msg.counts| ==> 0 <= msg.counts[g]
    ensures Distinct(Next(p, st, msg).alice.home)
  {
    var fates := Fates(p, st.alice, ReplyTo(p, st, msg));
    SelectNone(fates, Split);
    PickDistinct(st.alice.home, Select(fates, Carried));
    assert RepeatEach(p, Pick(st.alice.home, [])) + Pick(st.alice.home, Select(fates, Carried))
           == Pick(st.alice.home, Select(fates, Carried));
  }

  ghost predicate NeverSplits(msgs: seq<DecodingMessage>) {
    forall i, g :: 0 <= i < |msgs| && 0 <= g < |msgs[i].counts| ==> 0 <= msgs[i].counts[g]
  }

  /** In a run without failed decodings every round's list is free of repetitions. */
  lemma {:induction false} RunDistinct(p: Params, st: Pair, msgs: seq<DecodingMessage>)
    requires Inv(p, st) && IsRun(p, st, msgs) && Distinct(st.alice.home) && NeverSplits(msgs)
    requires forall i :: 0 <= i < |msgs| ==> WellSized(msgs[i]) && BinsDistinct(msgs[i])
    requires forall i :: 0 <= i < |st.recovered| ==> Distinct(st.recovered[i])
    ensures forall i :: 0 <= i < |Run(p, st, msgs).recovered| ==> Distinct(Run(p, st, msgs).recovered[i])
    ensures Distinct(Run(p, st, msgs).alice.home)
    decreases |msgs|
  {
    if msgs == [] {
    } else {
      var init, last := msgs[..|msgs| - 1], msgs[|msgs| - 1];
      RunDistinct(p, st, init);
      RoundDistinct(p, Run(p, st, init), last);
      HomesStayDistinct(p, Run(p, st, init), last);
    }
  }

  // ---------- a loss the checksum cannot see ----------

  lemma FilterAll<T>(s: seq<T>, f: T -> bool)
    ensures (forall e :: e in s ==> f(e)) ==> Filter(s, f) == s
    ensures (forall e :: e in s ==> !f(e)) ==> Filter(s, f) == []
  {
    if s == [] {
    } else {
      assert s == s[..|s| - 1] + [s[|s| - 1]];
      FilterAll(s[..|s| - 1], f);
    }
  }

  /** All keys go to the same group, and in the first round to the same bin. */
  ghost predicate Together(p: Params, keys: seq<Key>) {
    forall i, j :: 0 <= i < |keys| && 0 <= j < |keys| ==>
      GroupId(p, keys[i]) == GroupId(p, keys[j]) && BinId(p, keys[i], 0) == BinId(p, keys[j], 0)
  }

  /** An even number of keys in one bin does not show in the bitmap. */
  lemma EvenBitmap(p: Params, keys: seq<Key>)
    requires Together(p, keys) && |keys| % 2 == 0
    ensures OddBins(p, keys, 0) == {}
  {
    forall b: nat | 1 <= b < p.n
      ensures |InBin(p, keys, 0, b)| % 2 == 0
    {
      FilterAll(keys, BinIs(p, 0, b));
      assert InBin(p, keys, 0, b) == keys || InBin(p, keys, 0, b) == [];
    }
  }

  /** Each group holds all of the keys or none. */
  lemma TogetherGroups(p: Params, keys: seq<Key>, g: nat)
    requires Together(p, keys) && g < p.numGroups
    ensures InitialSide(p, keys).groups[g] == keys || InitialSide(p, keys).groups[g] == []
    ensures InitialSide(p, []).groups[g] == []
  {
    FilterAll(keys, GroupIs(p, g));
  }

  /** The message that no bin differs in any group. */
  function NothingDiffers(p: Params): (msg: DecodingMessage)
    ensures |msg.counts| == p.numGroups && WellSized(msg)
  {
    var counts := seq(p.numGroups, _ => 0);
    NoOffsets(counts, p.numGroups);
    DecodingMessage(counts, [])
  }

  lemma {:induction false} NoOffsets(counts: seq<int>, k: nat)
    requires k <= |counts| && forall i :: 0 <= i < |counts| ==> counts[i] == 0
    ensures Offset(counts, k) == 0
  {
    if k == 0 {
    } else {
      NoOffsets(counts, k - 1);
    }
  }

  /** Where no bin is reported nothing is recovered, and the checksums decide. */
  lemma NothingReported(p: Params, st: Pair, msg: DecodingMessage, g: nat)
    requires Inv(p, st) && Answers(st, msg) && g < |msg.counts| && msg.counts[g] == 0
    ensures var y := ReplyTo(p, st, msg);
            && Recs(p, st.alice, y)[g] == []
            && Fates(p, st.alice, y)[g]
               == if XorSeq(st.alice.groups[g]) == XorSeq(st.bob.groups[g]) then Finished else Carried
  {
    var y := ReplyTo(p, st, msg);
    ReplyAligned(p, st.bob, msg, g);
    assert GroupRecovered(p, st.alice, y, g) == [];
    XorZero(XorSeq(st.alice.groups[g]));
  }

  lemma NothingMerged(p: Params, st: Pair, msg: DecodingMessage, g: nat)
    requires Inv(p, st) && Answers(st, msg) && g < |msg.counts| && msg.counts[g] == 0 && Merged(p, st, g) == {}
    ensures DecodedRight(p, st, msg, g)
  {
    assert Bins(msg, g) == [];
  }

  /** When every group is finished, the round ends the run. */
  lemma AllFinished(p: Params, st: Pair, msg: DecodingMessage)
    requires Inv(p, st) && Answers(st, msg)
    requires forall g :: 0 <= g < |st.alice.groups| ==> Fates(p, st.alice, ReplyTo(p, st, msg))[g] == Finished
    ensures Next(p, st, msg).alice.groups == []
    ensures Next(p, st, msg).recovered == st.recovered + [Flatten(Recs(p, st.alice, ReplyTo(p, st, msg)))]
  {
    var fates := Fates(p, st.alice, ReplyTo(p, st, msg));
    SelectNone(fates, Split);
    SelectNone(fates, Carried);
  }

  lemma StartGroups(p: Params, keys: seq<Key>)
    requires Together(p, keys) && |keys| % 2 == 0
    ensures Inv(p, Start(p, keys, [])) && Answers(Start(p, keys, []), NothingDiffers(p))
    ensures var st := Start(p, keys, []);
            forall g :: 0 <= g < p.numGroups ==>
              Merged(p, st, g) == {} && st.bob.groups[g] == []
                && (st.alice.groups[g] == keys || st.alice.groups[g] == [])
  {
    StartEverything(p, keys, []);
    EvenBitmap(p, keys);
    EvenBitmap(p, []);
    forall g | 0 <= g < p.numGroups
      ensures var st := Start(p, keys, []);
              Merged(p, st, g) == {} && st.bob.groups[g] == []
                && (st.alice.groups[g] == keys || st.alice.groups[g] == [])
    {
      TogetherGroups(p, keys, g);
    }
  }

  /** The condition in RunRecoversDifference cannot be dropped, whatever the parameters: an even number of keys
      in one bin whose XOR is zero shows neither in the bitmaps nor in the checksums. With every group decoded
      right, the run ends after one round and all of the keys are lost. */
  lemma CollisionLosesKeys(p: Params, keys: seq<Key>, st: Pair, msg: DecodingMessage)
    requires Together(p, keys) && Distinct(keys) && |keys| % 2 == 0 && XorSeq(keys) == ZERO
    requires st == Start(p, keys, []) && msg == NothingDiffers(p)
    ensures Inv(p, st) && Answers(st, msg) && (forall g :: 0 <= g < p.numGroups ==> DecodedRight(p, st, msg, g))
    ensures Next(p, st, msg).alice.groups == [] && Flatten(Next(p, st, msg).recovered) == []
    ensures Everything(st) == ToSet(keys)
  {
    StartEverything(p, keys, []);
    OddDistinct(keys);
    assert SymDiff(Odd(keys), Odd([])) == Odd(keys);
    StartGroups(p, keys);
    NothingAtAll(p, keys, st, msg);
    NothingLeftOver(p, st, msg);
  }

  lemma NothingAtAll(p: Params, keys: seq<Key>, st: Pair, msg: DecodingMessage)
    requires st == Start(p, keys, []) && msg == NothingDiffers(p) && XorSeq(keys) == ZERO
    requires forall g :: 0 <= g < p.numGroups ==>
               Merged(p, st, g) == {} && st.bob.groups[g] == []
                 && (st.alice.groups[g] == keys || st.alice.groups[g] == [])
    ensures forall g :: 0 <= g < |msg.counts| ==>
              msg.counts[g] == 0 && Merged(p, st, g) == {} && XorSeq(st.alice.groups[g]) == XorSeq(st.bob.groups[g])
  {
    assert XorSeq([]) == ZERO;
  }

  lemma NothingLeftOver(p: Params, st: Pair, msg: DecodingMessage)
    requires Inv(p, st) && Answers(st, msg) && st.recovered == []
    requires forall g :: 0 <= g < |msg.counts| ==>
               msg.counts[g] == 0 && Merged(p, st, g) == {} && XorSeq(st.alice.groups[g]) == XorSeq(st.bob.groups[g])
    ensures forall g :: 0 <= g < |msg.counts| ==> DecodedRight(p, st, msg, g)
    ensures Next(p, st, msg).alice.groups == [] && Flatten(Next(p, st, msg).recovered) == []
  {
    var y := ReplyTo(p, st, msg);
    forall g | 0 <= g < |msg.counts|
      ensures DecodedRight(p, st, msg, g) && Recs(p, st.alice, y)[g] == [] && Fates(p, st.alice, y)[g] == Finished
    {
      NothingReported(p, st, msg, g);
      NothingMerged(p, st, msg, g);
    }
    AllFinished(p, st, msg);
    NothingFlat(Recs(p, st.alice, y));
    var none: seq<Key> := [];
    FlattenSnoc([], none);
  }

  lemma {:induction false} NothingFlat(lists: seq<seq<Key>>)
    requires forall i :: 0 <= i < |lists| ==> lists[i] == []
    ensures Flatten(lists) == []
  {
    if lists == [] {
    } else {
      NothingFlat(lists[..|lists| - 1]);
    }
  }

  /** A hash that puts every key into group 0 and bin 1, with a code that the parameter search can choose. */
  const CONSTANT_HASH: Params := RawParams((_, _) => 0, 6, 63, 11, 3, 1, 0)

  /** 0, 1, 2 and 3: four keys whose XOR is zero. */
  const FOUR: seq<Key> := [Key({}), Key({0}), Key({1}), Key({0, 1})]

  /** Such keys exist. */
  lemma FourCollide()
    ensures Together(CONSTANT_HASH, FOUR) && Distinct(FOUR) && |FOUR| == 4 && XorSeq(FOUR) == ZERO
  {
    assert 0 in FOUR[1].ones && 1 !in FOUR[1].ones && 1 in FOUR[2].ones && 0 !in FOUR[2].ones;
    assert 0 in FOUR[3].ones && 1 in FOUR[3].ones;
    FourXorToZero();
  }

  lemma FourXorToZero()
    ensures XorSeq(FOUR) == ZERO
  {
    var one, two, three := Key({0}), Key({1}), Key({0, 1});
    assert FOUR == [] + [ZERO] + [one] + [two] + [three];
    XorSeqSnoc([], ZERO);
    XorSeqSnoc([] + [ZERO], one);
    XorSeqSnoc([] + [ZERO] + [one], two);
    XorSeqSnoc([] + [ZERO] + [one] + [two], three);
    assert Xor(ZERO, ZERO).ones == {} && Xor(ZERO, one).ones == {0} && Xor(one, two).ones == {0, 1};
    assert Xor(three, three).ones == {};
  }
}
