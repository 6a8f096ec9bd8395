/**
 Rounds whose messages all go through the wire formats. Encoding and decoding messages always arrive; the hint
 does not if a single group was left: its id takes no bits.
 */
module PbsWire {
  import opened Wrappers
  import opened Arithmetic
  import opened Parity
  import opened PbsSpec
  import opened PbsRounds
  import opened PbsTheorems
  import opened PbsSketch
  import opened PbsRun
  import EncodingCodec
  import HintCodec

  // ---------- sketches as bits ----------

  /** How a minisketch writes the set it holds as m * t bits, and what it decodes from such bits. */
  datatype Minisketch = Minisketch(bits: set<nat> -> seq<bool>, decode: seq<bool> -> Option<seq<nat>>)

  /** minisketch_merge: XOR bit by bit. */
  function XorBits(a: seq<bool>, b: seq<bool>): (r: seq<bool>)
    requires |a| == |b|
    ensures |r| == |a|
  {
    seq(|a|, i requires 0 <= i < |a| => a[i] != b[i])
  }

  ghost predicate InBins(p: Params, s: set<nat>) {
    forall b :: b in s ==> 1 <= b < p.n
  }

  /** All sketches have the same size, merging is symmetric difference, and decoding is as good as assumed. */
  ghost predicate Works(p: Params, k: Minisketch) {
    && (forall s :: |k.bits(s)| == Area(p.m, p.t))
    && (forall s, t :: k.bits(SymDiff(s, t)) == XorBits(k.bits(s), k.bits(t)))
    && (forall s :: InBins(p, s) ==> DecodeResult(p, s, k.decode(k.bits(s))))
  }

  ghost function Listed(s: set<nat>): (bins: seq<nat>)
    ensures |bins| == |s| && Distinct(bins) && ToSet(bins) == s
  {
    if s == {} then []
    else
      var b :| b in s;
      Listed(s - {b}) + [b]
  }

  ghost function Marked(bits: seq<bool>): set<nat> {
    set i: nat | i < |bits| && bits[i]
  }

  /** Such a minisketch exists, at least where the bitmap itself fits m * t bits. */
  lemma MinisketchExists(p: Params) returns (k: Minisketch)
    requires p.n <= Area(p.m, p.t)
    ensures Works(p, k)
  {
    var bits := (s: set<nat>) => seq(Area(p.m, p.t), i => i in s);
    var decode := (b: seq<bool>) => if |Marked(b)| <= p.t then Some(Listed(Marked(b))) else None;
    k := Minisketch(bits, decode);
    forall s | InBins(p, s)
      ensures DecodeResult(p, s, k.decode(k.bits(s)))
    {
      assert Marked(k.bits(s)) == s;
      assert forall i :: 0 <= i < |Listed(s)| ==> Listed(s)[i] in ToSet(Listed(s));
    }
  }

  function BitsOf(k: Minisketch, sketches: seq<set<nat>>): (r: seq<seq<bool>>)
    ensures |r| == |sketches|
  {
    seq(|sketches|, g requires 0 <= g < |sketches| => k.bits(sketches[g]))
  }

  /** An encoding message written and parsed: the bits of every sketch arrive. */
  method SendSketches(p: Params, k: Minisketch, sketches: seq<set<nat>>) returns (received: seq<seq<bool>>)
    requires Works(p, k) && sketches != []
    ensures received == BitsOf(k, sketches)
  {
    var sent := BitsOf(k, sketches);
    var bytes, message := EncodingCodec.RoundTrip(p.m, p.t, sent);
    received := message.sketches;
  }

  /** Merging the received sketches into one's own and decoding. */
  method DecodeReceived(p: Params, k: Minisketch, mine: seq<set<nat>>, received: seq<seq<bool>>,
                        ghost other: seq<set<nat>>)
    returns (results: seq<Option<seq<nat>>>)
    requires Works(p, k) && |mine| == |other| && received == BitsOf(k, other)
    ensures |results| == |mine|
    ensures forall g :: 0 <= g < |mine| ==> results[g] == k.decode(k.bits(SymDiff(mine[g], other[g])))
  {
    results := [];
    var g := 0;
    while g < |mine|
      invariant |results| == g <= |mine|
      invariant forall h :: 0 <= h < g ==> results[h] == k.decode(k.bits(SymDiff(mine[h], other[h])))
    {
      results := results + [k.decode(XorBits(k.bits(mine[g]), received[g]))];
      g := g + 1;
    }
  }

  /** What the decoder reports in this state. */
  ghost function Results(p: Params, k: Minisketch, st: Pair): (r: seq<Option<seq<nat>>>)
    requires LockStep(st)
    ensures |r| == |st.alice.groups|
  {
    seq(|st.alice.groups|, g requires 0 <= g < |st.alice.groups| => k.decode(k.bits(Merged(p, st, g))))
  }

  lemma ResultsDecoded(p: Params, k: Minisketch, st: Pair)
    requires LockStep(st) && Works(p, k)
    ensures Decoded(p, st, Results(p, k, st)) && Answers(st, Pack(Results(p, k, st)))
  {
    forall g | 0 <= g < |st.alice.groups|
      ensures DecodeResult(p, Merged(p, st, g), Results(p, k, st)[g])
    {
      assert InBins(p, Merged(p, st, g));
    }
  }

  lemma MergedSketches(alice: ParityBitmapSketch, bob: ParityBitmapSketch, st: Pair)
    requires Synced(alice, bob, st)
    ensures |bob.sketches| == |alice.sketches| == |st.alice.groups|
    ensures forall g :: 0 <= g < |st.alice.groups| ==>
              SymDiff(bob.sketches[g], alice.sketches[g]) == Merged(alice.p, st, g)
  {
    forall g | 0 <= g < |st.alice.groups|
      ensures SymDiff(bob.sketches[g], alice.sketches[g]) == Merged(alice.p, st, g)
    {
      assert alice.sketches[g] == OddBins(alice.p, alice.State().groups[g], alice.State().round);
      assert bob.sketches[g] == OddBins(bob.p, bob.State().groups[g], bob.State().round);
    }
  }

  /** Alice's sketches go to Bob as bits, and his decoder works on these. */
  method TransmitSketches(alice: ParityBitmapSketch, bob: ParityBitmapSketch, k: Minisketch, ghost st: Pair)
    returns (results: seq<Option<seq<nat>>>)
    requires Synced(alice, bob, st) && Works(alice.p, k) && st.alice.groups != []
    ensures results == Results(alice.p, k, st)
  {
    MergedSketches(alice, bob, st);
    var received := SendSketches(alice.p, k, alice.sketches);
    results := DecodeReceived(bob.p, k, bob.sketches, received, alice.sketches);
  }

  // ---------- hints ----------

  /** The groups that keep a wrong checksum in this round: what the next hint names. */
  function Exceptions(p: Params, st: Pair, msg: DecodingMessage): seq<nat>
    requires LockStep(st) && Answers(st, msg) && |st.alice.home| == |st.alice.groups|
  {
    Select(Fates(p, st.alice, ReplyTo(p, st, msg)), Carried)
  }

  /** What the other host hears of a hint over `range` groups. */
  function Heard(ids: seq<nat>, range: nat): seq<nat> {
    if range == 1 then [] else ids
  }

  /** One round when the hint goes through its wire format. */
  function WireNext(p: Params, st: Pair, msg: DecodingMessage): Pair
    requires LockStep(st) && Answers(st, msg) && |st.alice.home| == |st.alice.groups|
  {
    Next(p, st, msg).(bob := BobNext(p, st.bob, Failed(msg.counts), Heard(Exceptions(p, st, msg), |st.alice.groups|)))
  }

  lemma SelectOne(fates: seq<Fate>, f: Fate)
    requires |fates| == 1
    ensures Select(fates, f) == if fates[0] == f then [0] else []
  {
    assert fates[..0] == [];
    assert Select(fates[..0], f) == [];
  }

  /** A single group with a wrong checksum is the only thing that breaks lock-step, and it always does: Bob
      goes on without any group. */
  lemma WireLockStep(p: Params, st: Pair, msg: DecodingMessage)
    requires Inv(p, st) && Answers(st, msg)
    ensures var lost := |st.alice.groups| == 1 && Exceptions(p, st, msg) != [];
            && (LockStep(WireNext(p, st, msg)) <==> !lost) && (Inv(p, WireNext(p, st, msg)) <==> !lost)
            && (!lost ==> WireNext(p, st, msg) == Next(p, st, msg))
            && (lost ==> |WireNext(p, st, msg).alice.groups| == 1 && WireNext(p, st, msg).bob.groups == [])
  {
    NextAtHome(p, st, msg);
    if |st.alice.groups| == 1 && Exceptions(p, st, msg) != [] {
      var fates := Fates(p, st.alice, ReplyTo(p, st, msg));
      SelectOne(fates, Carried);
      SelectOne(fates, Split);
      SelectSplit(fates, msg.counts);
      assert Failed(msg.counts) == [];
      assert SplitAll(p, Pick(st.bob.groups, []), st.bob.round) == [];
    }
  }

  /** Alice encodes the next round, writes her hint, and Bob parses it and follows it. */
  method NextRoundOverWire(alice: ParityBitmapSketch, bob: ParityBitmapSketch, ghost st: Pair, ghost base: Side)
    requires alice != bob && alice.p == bob.p
    requires alice.Fresh() && alice.role == Alice && alice.State() == st.alice && alice.recovered == st.recovered
    requires 1 <= alice.hintMaxRange == bob.hintMaxRange == bob.live && Increasing(alice.groupsExp)
    requires bob.Pending() && bob.Base() == base
    requires st.bob == BobNext(bob.p, base, bob.groupsBchFailed, Heard(alice.groupsExp, alice.hintMaxRange))
    modifies alice, bob
    ensures alice.State() == st.alice && bob.State() == st.bob && alice.recovered == st.recovered
    ensures Sketched(alice) && Sketched(bob) && alice.role == Alice && bob.role == Bob && bob.groupsBchFailed == []
    ensures !Inv(alice.p, st) || Synced(alice, bob, st)
  {
    var _, hint := alice.Encode();
    var ids := if hint.None? then [] else hint.value;
    var heard := HintCodec.Deliver(ids, alice.hintMaxRange);
    var r := bob.EncodeWithHint(heard);
  }

  /** One full round over the wire: the hosts do what WireNext says, and are ready for the next round if that
      keeps them in lock-step. */
  method WireRound(alice: ParityBitmapSketch, bob: ParityBitmapSketch, k: Minisketch, ghost st: Pair)
    returns (done: bool)
    requires Synced(alice, bob, st) && Works(alice.p, k) && st.alice.groups != []
    modifies alice, bob
    ensures Answers(st, Pack(Results(alice.p, k, st)))
    ensures var after := WireNext(alice.p, st, Pack(Results(alice.p, k, st)));
            && done == (after.alice.groups == [])
            && alice.State() == after.alice && alice.recovered == after.recovered
            && (!done ==> bob.State() == after.bob)
            && (done || !Inv(alice.p, after) || Synced(alice, bob, after))
  {
    ResultsDecoded(alice.p, k, st);
    var results := TransmitSketches(alice, bob, k, st);
    done := Exchange(alice, bob, results, st);
    ghost var after := WireNext(alice.p, st, Pack(results));
    if !done {
      NextRoundOverWire(alice, bob, after, st.bob);
    }
  }

  // ---------- a hint that is lost ----------

  lemma ExceptionInOnlyGroup(p: Params, st: Pair, msg: DecodingMessage)
    requires Inv(p, st) && Answers(st, msg) && |st.alice.groups| == 1 && msg.counts[0] == 0
    requires XorSeq(st.alice.groups[0]) != XorSeq(st.bob.groups[0])
    ensures Exceptions(p, st, msg) == [0]
  {
    NothingReported(p, st, msg, 0);
    SelectOne(Fates(p, st.alice, ReplyTo(p, st, msg)), Carried);
  }

  /** Two keys of one host that share group and bin, whatever the parameters with a single group: the bitmap
      shows nothing, the checksum does, and the hint that says so is lost. */
  lemma TwoKeysLoseHint(p: Params, a: Key, b: Key, st: Pair, msg: DecodingMessage)
    requires p.numGroups == 1 && a != b && BinId(p, a, 0) == BinId(p, b, 0)
    requires st == Start(p, [a, b], []) && msg == NothingDiffers(p)
    ensures Inv(p, st) && Answers(st, msg) && DecodedRight(p, st, msg, 0) && Exceptions(p, st, msg) == [0]
    ensures !LockStep(WireNext(p, st, msg)) && WireNext(p, st, msg).bob.groups == []
  {
    StartGroups(p, [a, b]);
    NothingMerged(p, st, msg, 0);
    OnlyGroup(p, [a, b]);
    TwoKeysXor(a, b);
    ExceptionInOnlyGroup(p, st, msg);
    WireLockStep(p, st, msg);
  }

  lemma OnlyGroup(p: Params, keys: seq<Key>)
    requires p.numGroups == 1
    ensures InitialSide(p, keys).groups[0] == keys
  {
    FilterAll(keys, GroupIs(p, 0));
  }

  lemma TwoKeysXor(a: Key, b: Key)
    requires a != b
    ensures XorSeq([a, b]) != ZERO && XorSeq([]) == ZERO
  {
    assert [a, b] == ([] + [a]) + [b];
    XorSeqSnoc([] + [a], b);
    XorSeqSnoc([], a);
    XorZero(a);
    XorCommutes(ZERO, a);
    if Xor(a, b) == ZERO {
      XorCancels(a, b);
      XorCommutes(a, b);
      XorCancels(b, a);
      XorZero(b);
      XorCommutes(ZERO, b);
    }
  }

  /** A concrete run in which the hint is lost. */
  lemma HintLost(st: Pair, msg: DecodingMessage)
    requires st == Start(CONSTANT_HASH, [Key({0}), Key({1})], []) && msg == NothingDiffers(CONSTANT_HASH)
    ensures Inv(CONSTANT_HASH, st) && Answers(st, msg) && DecodedRight(CONSTANT_HASH, st, msg, 0)
    ensures Exceptions(CONSTANT_HASH, st, msg) == [0]
    ensures !LockStep(WireNext(CONSTANT_HASH, st, msg)) && WireNext(CONSTANT_HASH, st, msg).bob.groups == []
  {
    assert 0 in Key({0}).ones && 0 !in Key({1}).ones;
    TwoKeysLoseHint(CONSTANT_HASH, Key({0}), Key({1}), st, msg);
  }
}
