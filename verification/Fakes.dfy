/**
 A group in which an odd number of keys share a bin, and their XOR hashes back to that bin: it is recovered as if it
 were a key that differs. Other keys, an even number of them in another bin, decide whether the checksum notices.
 */
module Fakes {
  import opened Parity
  import opened PbsSpec
  import opened PbsRounds
  import opened PbsTheorems

  /** The keys `odd` in bin b pass for x, the keys `even` in bin c do not show. */
  ghost predicate Mixed(p: Params, odd: seq<Key>, even: seq<Key>, x: Key, round: nat, b: nat, c: nat) {
    && Distinct(odd + even) && |odd| % 2 == 1 && |even| % 2 == 0 && b != c
    && (forall e :: e in odd ==> BinId(p, e, round) == b) && (forall e :: e in even ==> BinId(p, e, round) == c)
    && XorSeq(odd) == x && BinId(p, x, round) == b && x !in odd + even
  }

  lemma PartsDistinct(s: seq<Key>, t: seq<Key>)
    requires Distinct(s + t)
    ensures Distinct(s) && Distinct(t) && ToSet(s + t) == ToSet(s) + ToSet(t)
  {
    assert forall i :: 0 <= i < |s| ==> (s + t)[i] == s[i];
    assert forall i :: 0 <= i < |t| ==> (s + t)[|s| + i] == t[i];
  }

  lemma MixedBin(p: Params, odd: seq<Key>, even: seq<Key>, x: Key, round: nat, b: nat, c: nat, bin: nat)
    requires Mixed(p, odd, even, x, round, b, c)
    ensures InBinSet(p, ToSet(odd + even), round, bin)
         == if bin == b then ToSet(odd) else if bin == c then ToSet(even) else {}
  {
  }

  lemma MixedSizes(p: Params, odd: seq<Key>, even: seq<Key>, x: Key, round: nat, b: nat, c: nat, bin: nat)
    requires Mixed(p, odd, even, x, round, b, c)
    ensures |InBinSet(p, ToSet(odd + even), round, bin)| % 2 == 1 <==> bin == b
  {
    MixedBin(p, odd, even, x, round, b, c, bin);
    PartsDistinct(odd, even);
    SizeOfDistinct(odd);
    SizeOfDistinct(even);
  }

  /** Only the bin of the odd keys shows. */
  lemma MixedMerged(p: Params, st: Pair, g: nat, odd: seq<Key>, even: seq<Key>, x: Key, b: nat, c: nat)
    requires LockStep(st) && g < |st.alice.groups| && st.alice.groups[g] == odd + even && st.bob.groups[g] == []
    requires Mixed(p, odd, even, x, st.alice.round, b, c)
    ensures Merged(p, st, g) == {b} && Residual(st, g) == ToSet(odd + even)
  {
    ResidualOf(st, g);
    forall bin: nat
      ensures bin in Merged(p, st, g) <==> bin == b
    {
      if 1 <= bin < p.n {
        BinFacts(p, st.alice.groups[g], st.bob.groups[g], st.alice.round, bin);
        MixedSizes(p, odd, even, x, st.alice.round, b, c, bin);
      }
    }
  }

  lemma XorOfDistinct(s: seq<Key>)
    requires Distinct(s)
    ensures XorSet(ToSet(s)) == XorSeq(s)
  {
    XorOdd(s);
    OddDistinct(s);
  }

  /** What is left when the fake has been added to the group. */
  lemma MixedRest(odd: seq<Key>, even: seq<Key>, x: Key)
    requires Distinct(odd + even) && XorSeq(odd) == x
    ensures XorSet(SymDiff(ToSet(odd + even), {x})) == XorSeq(even)
  {
    XorOfDistinct(odd + even);
    XorSeqConcat(odd, even);
    XorSetToggle(ToSet(odd + even), x);
    XorSwap(x, XorSeq(even), x);
    XorZero(x);
    XorCommutes(ZERO, XorSeq(even));
    XorZero(XorSeq(even));
  }

  /** The fake is recovered, and the group is finished exactly if the other keys XOR to zero. */
  lemma MixedRecovers(p: Params, st: Pair, msg: DecodingMessage, g: nat, odd: seq<Key>, even: seq<Key>, x: Key,
                      b: nat, c: nat)
    requires Inv(p, st) && Answers(st, msg) && g < |st.alice.groups| && DecodedRight(p, st, msg, g)
    requires st.alice.groups[g] == odd + even && st.bob.groups[g] == []
    requires Mixed(p, odd, even, x, st.alice.round, b, c) && GroupId(p, x) == st.alice.home[g]
    ensures Recs(p, st.alice, ReplyTo(p, st, msg))[g] == [x]
    ensures Fates(p, st.alice, ReplyTo(p, st, msg))[g] == if XorSeq(even) == ZERO then Finished else Carried
  {
    MixedMerged(p, st, g, odd, even, x, b, c);
    MixedBin(p, odd, even, x, st.alice.round, b, c, b);
    PartsDistinct(odd, even);
    XorOfDistinct(odd);
    OneBinRecovers(p, st, msg, g, b, x);
    MixedRest(odd, even, x);
    OneKeyLeaves(p, st, msg, g, x);
  }

  // ---------- three keys that make a fake, and two that betray it ----------

  const X: Key := Key({0})
  const TRIPLE: seq<Key> := [Key({1}), Key({2}), Key({0, 1, 2})]
  const COUPLE: seq<Key> := [Key({3}), Key({4})]

  lemma XorOfTriple()
    ensures XorSeq(TRIPLE) == X
  {
    assert TRIPLE == [] + [Key({1})] + [Key({2})] + [Key({0, 1, 2})];
    XorSeqSnoc([], Key({1}));
    XorSeqSnoc([] + [Key({1})], Key({2}));
    XorSeqSnoc([] + [Key({1})] + [Key({2})], Key({0, 1, 2}));
    assert Xor(ZERO, Key({1})).ones == {1} && Xor(Key({1}), Key({2})).ones == {1, 2};
    assert Xor(Key({1, 2}), Key({0, 1, 2})).ones == {0};
  }

  lemma XorOfCouple()
    ensures XorSeq(COUPLE) != ZERO
  {
    assert COUPLE == [] + [Key({3})] + [Key({4})];
    XorSeqSnoc([], Key({3}));
    XorSeqSnoc([] + [Key({3})], Key({4}));
    assert Xor(ZERO, Key({3})).ones == {3} && 3 in Xor(Key({3}), Key({4})).ones;
  }

  lemma TripleDistinct()
    ensures Distinct(TRIPLE) && Distinct(TRIPLE + COUPLE) && X !in TRIPLE && X !in TRIPLE + COUPLE
  {
    assert forall i :: 0 <= i < 3 ==> 0 !in TRIPLE[i].ones || 1 in TRIPLE[i].ones;
    assert 3 in COUPLE[0].ones && 3 !in COUPLE[1].ones && 4 in COUPLE[1].ones;
    assert 1 in TRIPLE[0].ones && 2 !in TRIPLE[0].ones && 1 !in TRIPLE[1].ones && 2 in TRIPLE[1].ones;
    assert 1 in TRIPLE[2].ones && 2 in TRIPLE[2].ones;
    assert forall i :: 0 <= i < 2 ==> 1 !in COUPLE[i].ones && 2 !in COUPLE[i].ones && 0 !in COUPLE[i].ones;
  }
}
