/**
 Two sketch objects exchanging messages, proved against the two-party specification.
 */
module PbsRun {
  import opened Wrappers
  import opened Parity
  import opened PbsSpec
  import opened PbsRounds
  import opened PbsTheorems
  import opened PbsSketch
  import DecodingCodec

  ghost predicate Sketched(s: ParityBitmapSketch)
    reads s
  {
    s.Encoded() && s.groupsExp == []
    && forall g :: 0 <= g < s.live ==> s.sketches[g] == OddBins(s.p, s.groups[g], s.round)
  }

  /** Both objects have encoded the round that `st` starts. */
  ghost predicate Synced(alice: ParityBitmapSketch, bob: ParityBitmapSketch, st: Pair)
    reads alice, bob
  {
    && alice != bob && alice.p == bob.p && Inv(alice.p, st)
    && Sketched(alice) && alice.role != Bob && alice.State() == st.alice && alice.recovered == st.recovered
    && Sketched(bob) && bob.role != Alice && bob.State() == st.bob && bob.groupsBchFailed == []
    && alice.hintMaxRange == bob.hintMaxRange
  }

  lemma InitialSnoc(p: Params, keys: seq<Key>, e: Key)
    ensures var s := InitialSide(p, keys);
            InitialSide(p, keys + [e]).groups == s.groups[GroupId(p, e) := s.groups[GroupId(p, e)] + [e]]
  {
    assert (keys + [e])[..|keys|] == keys;
  }

  method NewSketch(p: Params, keys: seq<Key>) returns (s: ParityBitmapSketch)
    ensures fresh(s) && s.p == p && Sketched(s) && s.State() == InitialSide(p, keys)
    ensures s.role == Undetermined && s.hintMaxRange == p.numGroups && s.groupsBchFailed == [] && s.recovered == []
  {
    s := new ParityBitmapSketch(p);
    assert s.State() == InitialSide(p, []);
    var i := 0;
    while i < |keys|
      invariant i <= |keys| && fresh(s) && s.p == p && s.Fresh()
      invariant s.State() == InitialSide(p, keys[..i])
      invariant s.role == Undetermined && s.hintMaxRange == p.numGroups && s.groupsBchFailed == [] && s.recovered == []
      invariant s.groupsExp == []
    {
      InitialSnoc(p, keys[..i], keys[i]);
      assert keys[..i + 1] == keys[..i] + [keys[i]];
      s.Add(keys[i]);
      i := i + 1;
    }
    assert keys[..i] == keys;
    var _, _ := s.Encode();
  }

  ghost predicate Decoded(p: Params, st: Pair, results: seq<Option<seq<nat>>>)
    requires LockStep(st)
  {
    |results| == |st.alice.groups| && forall g :: 0 <= g < |results| ==> DecodeResult(p, Merged(p, st, g), results[g])
  }

  /** A decoder within its capacity decodes right. */
  lemma WithinCapacity(p: Params, st: Pair, results: seq<Option<seq<nat>>>, g: nat)
    requires LockStep(st) && Decoded(p, st, results) && g < |results| && |Merged(p, st, g)| <= p.t
    ensures Answers(st, Pack(results)) && DecodedRight(p, st, Pack(results), g)
  {
    PackBins(results, g);
    assert DecodeResult(p, Merged(p, st, g), results[g]);
  }

  lemma ResultsInRow(p: Params, st: Pair, results: seq<Option<seq<nat>>>)
    requires LockStep(st) && Decoded(p, st, results)
    ensures Answers(st, Pack(results)) && BinsInRow(p, Pack(results)) && BinsDistinct(Pack(results))
  {
    PackInRow(p, results);
    forall g | 0 <= g < |results|
      ensures Distinct(Bins(Pack(results), g))
    {
      PackBins(results, g);
    }
  }

  /** Bob's decoding message written and parsed: it arrives as it was. */
  method SendMessage(p: Params, msg: DecodingMessage) returns (got: DecodingMessage)
    requires WellSized(msg) && BinsInRow(p, msg) && forall g :: 0 <= g < |msg.counts| ==> -1 <= msg.counts[g] <= p.t
    ensures got == msg
  {
    var bytes, received := DecodingCodec.RoundTrip(p.m, p.t, msg.counts, msg.diffs);
    got := DecodingMessage(received.counts, received.diffs);
  }

  /** Bob answers over the wire and Alice checks: neither throws, and Alice is in the state the specification says. */
  method Exchange(alice: ParityBitmapSketch, bob: ParityBitmapSketch, results: seq<Option<seq<nat>>>, ghost st: Pair)
    returns (done: bool)
    requires Synced(alice, bob, st) && Decoded(alice.p, st, results)
    modifies alice, bob
    ensures Answers(st, Pack(results))
    ensures var p, msg := alice.p, Pack(results);
            var y := ReplyTo(p, st, msg);
            && alice.Fresh() && alice.role == Alice
            && alice.State() == Next(p, st, msg).alice && alice.recovered == Next(p, st, msg).recovered
            && alice.groupsExp == Select(Fates(p, st.alice, y), Carried) && alice.hintMaxRange == |st.alice.groups|
            && bob.Pending() && bob.Base() == st.bob && bob.groupsBchFailed == Failed(msg.counts)
            && bob.hintMaxRange == |st.alice.groups| == bob.live
            && done == (alice.groups == [])
  {
    ResultsInRow(alice.p, st, results);
    var answer := bob.Decode(alice.sketches, results);
    var msg := SendMessage(bob.p, answer.value.msg);
    ReplyAligned(bob.p, st.bob, Pack(results), 0);
    var checked := alice.DecodeCheck(answer.value.(msg := msg));
    done := checked.value;
  }

  /** Alice encodes the next round and Bob follows her hint. */
  method NextRound(alice: ParityBitmapSketch, bob: ParityBitmapSketch, ghost st: Pair, ghost base: Side)
    requires alice != bob && alice.p == bob.p && Inv(alice.p, st)
    requires alice.Fresh() && alice.role == Alice && alice.State() == st.alice && alice.recovered == st.recovered
    requires alice.hintMaxRange == bob.hintMaxRange == bob.live && Increasing(alice.groupsExp)
    requires bob.Pending() && bob.Base() == base
    requires st.bob == BobNext(bob.p, base, bob.groupsBchFailed, alice.groupsExp)
    modifies alice, bob
    ensures Synced(alice, bob, st)
  {
    var _, hint := alice.Encode();
    var ids := if hint.None? then [] else hint.value;
    var r := bob.EncodeWithHint(ids);
  }

  /** One full round. If groups are left, Alice's hint brings Bob back into lock-step: same groups in the
      same order, same homes, same round, same hint range, all tables freshly encoded. */
  method FullRound(alice: ParityBitmapSketch, bob: ParityBitmapSketch, results: seq<Option<seq<nat>>>, ghost st: Pair)
    returns (done: bool)
    requires Synced(alice, bob, st) && Decoded(alice.p, st, results)
    modifies alice, bob
    ensures Answers(st, Pack(results))
    ensures done == (Next(alice.p, st, Pack(results)).alice.groups == [])
    ensures alice.recovered == Next(alice.p, st, Pack(results)).recovered
    ensures !done ==> Synced(alice, bob, Next(alice.p, st, Pack(results)))
    ensures !done ==> alice.home == bob.home && |alice.groups| == |bob.groups| && alice.round == bob.round
  {
    done := Exchange(alice, bob, results, st);
    NextAtHome(alice.p, st, Pack(results));
    if !done {
      NextRound(alice, bob, Next(alice.p, st, Pack(results)), st.bob);
    }
  }
}
