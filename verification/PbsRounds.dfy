/**
 The two hosts together, over any number of rounds.
 */
module PbsRounds {
  import opened Arithmetic
  import opened Parity
  import opened PbsSpec

  /** Both hosts at the start of a round, and the lists Alice recovered in the earlier ones. */
  datatype Pair = Pair(alice: Side, bob: Side, recovered: seq<seq<Key>>)

  /** The two hosts have the same groups, in the same order, and count the same rounds. */
  predicate LockStep(st: Pair) {
    && |st.alice.groups| == |st.bob.groups|
    && st.alice.home == st.bob.home
    && st.alice.round == st.bob.round == |st.recovered|
  }

  ghost predicate Inv(p: Params, st: Pair) {
    LockStep(st) && AtHome(p, st.alice) && AtHome(p, st.bob)
  }

  /** A decoding message for this state, whatever it says; -1 stands for a failed decoding. */
  predicate Answers(st: Pair, msg: DecodingMessage) {
    WellSized(msg) && |msg.counts| == |st.bob.groups|
  }

  function ReplyTo(p: Params, st: Pair, msg: DecodingMessage): (y: Reply)
    requires LockStep(st) && Answers(st, msg) && |st.alice.home| == |st.alice.groups|
    ensures Fits(st.alice, y) && y.msg == msg
  {
    ReplyAligned(p, st.bob, msg, 0);
    BobReply(p, st.bob, msg)
  }

  function Next(p: Params, st: Pair, msg: DecodingMessage): Pair
    requires LockStep(st) && Answers(st, msg) && |st.alice.home| == |st.alice.groups|
  {
    var y := ReplyTo(p, st, msg);
    var fates, recs := Fates(p, st.alice, y), Recs(p, st.alice, y);
    Pair(AliceNext(p, st.alice, fates, recs),
         BobNext(p, st.bob, Failed(msg.counts), Select(fates, Carried)),
         st.recovered + [Flatten(recs)])
  }

  // ---------- invariants ----------

  lemma RecoverFacts(p: Params, home: nat, round: nat, bins: seq<nat>, theirs: seq<Key>, mine: seq<Key>)
    requires |bins| == |theirs|
    ensures forall e :: e in Recover(p, home, round, bins, theirs, mine) ==>
                          GroupId(p, e) == home && BinId(p, e, round) in bins
  {
  }

  lemma {:induction false} RecoverDistinct(p: Params, home: nat, round: nat, bins: seq<nat>, theirs: seq<Key>,
                                           mine: seq<Key>)
    requires |bins| == |theirs| && Distinct(bins)
    ensures Distinct(Recover(p, home, round, bins, theirs, mine))
  {
    if bins == [] {
    } else {
      var k := |bins| - 1;
      RecoverDistinct(p, home, round, bins[..k], theirs[..k], mine);
      RecoverFacts(p, home, round, bins[..k], theirs[..k], mine);
    }
  }

  lemma SplitAtHome(p: Params, groups: seq<seq<Key>>, homes: seq<nat>, round: nat)
    requires AtHome(p, Side(groups, homes, round))
    ensures AtHome(p, Side(SplitAll(p, groups, round), RepeatEach(p, homes), round))
  {
    if groups == [] {
    } else {
      var k := |groups| - 1;
      SplitAtHome(p, groups[..k], homes[..k], round);
      forall i | 0 <= i < p.c
        ensures forall e :: e in ThreeWay(p, groups[k], round)[i] ==> GroupId(p, e) == homes[k]
      {
        FilterMembers(groups[k], SplitIs(p, round, i));
      }
    }
  }

  lemma KeptAtHome(p: Params, s: Side, y: Reply, ids: seq<nat>)
    requires Fits(s, y) && AtHome(p, s) && Below(ids, |s.groups|)
    ensures AtHome(p, Side(Kept(s.groups, Recs(p, s, y), ids), Pick(s.home, ids), s.round))
  {
    forall i | 0 <= i < |ids|
      ensures forall e :: e in s.groups[ids[i]] + GroupRecovered(p, s, y, ids[i]) ==> GroupId(p, e) == s.home[ids[i]]
    {
      var g := ids[i];
      RecoverFacts(p, s.home[g], s.round, Bins(y.msg, g), Theirs(y, g), s.groups[g]);
    }
  }

  lemma ConcatAtHome(p: Params, s: Side, t: Side, round: nat)
    requires AtHome(p, s) && AtHome(p, t)
    ensures AtHome(p, Side(s.groups + t.groups, s.home + t.home, round))
  {
  }

  lemma NextAtHome(p: Params, st: Pair, msg: DecodingMessage)
    requires Inv(p, st) && Answers(st, msg)
    ensures Inv(p, Next(p, st, msg))
  {
    var y := ReplyTo(p, st, msg);
    var r := st.alice.round;
    var fates := Fates(p, st.alice, y);
    SelectSplit(fates, msg.counts);
    var failed, ids := Failed(msg.counts), Select(fates, Carried);
    SplitAtHome(p, Pick(st.alice.groups, failed), Pick(st.alice.home, failed), r);
    SplitAtHome(p, Pick(st.bob.groups, failed), Pick(st.bob.home, failed), r);
    KeptAtHome(p, st.alice, y, ids);
    ConcatAtHome(p, Side(SplitAll(p, Pick(st.alice.groups, failed), r), RepeatEach(p, Pick(st.alice.home, failed)), r),
                 Side(Kept(st.alice.groups, Recs(p, st.alice, y), ids), Pick(st.alice.home, ids), r), r + 1);
    ConcatAtHome(p, Side(SplitAll(p, Pick(st.bob.groups, failed), r), RepeatEach(p, Pick(st.bob.home, failed)), r),
                 Side(Pick(st.bob.groups, ids), Pick(st.bob.home, ids), r), r + 1);
  }

  // ---------- conservation ----------

  /** How often a key occurs in the first k subgroups of a group. */
  lemma {:induction false} SplitPrefix(p: Params, s: seq<Key>, round: nat, k: nat, x: Key)
    requires k <= p.c
    ensures Occ(ThreeWay(p, s, round)[..k], x) == if SplitId(p, x, round) < k then Times(s, x) else 0
  {
    var parts := ThreeWay(p, s, round);
    if k == 0 {
    } else {
      SplitPrefix(p, s, round, k - 1, x);
      assert parts[..k] == parts[..k - 1] + [parts[k - 1]];
      OccSnoc(parts[..k - 1], parts[k - 1], x);
      FilterTimes(s, SplitIs(p, round, k - 1), x);
    }
  }

  /** A split redistributes a group as a multiset: nothing is lost and nothing is added. */
  lemma ThreeWayContent(p: Params, s: seq<Key>, round: nat)
    ensures multiset(Flatten(ThreeWay(p, s, round))) == multiset(s)
  {
    var parts := ThreeWay(p, s, round);
    assert parts[..p.c] == parts;
    forall x: Key
      ensures multiset(Flatten(parts))[x] == multiset(s)[x]
    {
      SplitPrefix(p, s, round, p.c, x);
      OddFlatten(parts, x);
      TimesMultiset(Flatten(parts), x);
      TimesMultiset(s, x);
    }
  }

  lemma {:induction false} SplitAllOcc(p: Params, groups: seq<seq<Key>>, round: nat, x: Key)
    ensures Occ(SplitAll(p, groups, round), x) == Occ(groups, x)
  {
    if groups == [] {
    } else {
      var k := |groups| - 1;
      SplitAllOcc(p, groups[..k], round, x);
      OccConcat(SplitAll(p, groups[..k], round), ThreeWay(p, groups[k], round), x);
      SplitPrefix(p, groups[k], round, p.c, x);
      assert ThreeWay(p, groups[k], round)[..p.c] == ThreeWay(p, groups[k], round);
    }
  }

  lemma PickOcc(groups: seq<seq<Key>>, ids: seq<nat>, g: nat, x: Key)
    requires Below(ids, |groups|) && g < |groups|
    ensures Occ(Pick(groups, ids + [g]), x) == Occ(Pick(groups, ids), x) + Times(groups[g], x)
  {
    assert Pick(groups, ids + [g]) == Pick(groups, ids) + [groups[g]];
    OccSnoc(Pick(groups, ids), groups[g], x);
  }

  lemma {:induction false} KeptOcc(groups: seq<seq<Key>>, recs: seq<seq<Key>>, ids: seq<nat>, x: Key)
    requires |recs| == |groups| && Below(ids, |groups|)
    ensures Occ(Kept(groups, recs, ids), x) == Occ(Pick(groups, ids), x) + Occ(Pick(recs, ids), x)
  {
    if ids == [] {
    } else {
      var k := |ids| - 1;
      var init, g := ids[..k], ids[k];
      KeptOcc(groups, recs, init, x);
      assert ids == init + [g];
      assert Kept(groups, recs, ids) == Kept(groups, recs, init) + [groups[g] + recs[g]];
      OccSnoc(Kept(groups, recs, init), groups[g] + recs[g], x);
      TimesConcat(groups[g], recs[g], x);
      PickOcc(groups, init, g, x);
      PickOcc(recs, init, g, x);
    }
  }

  lemma SelectOcc(groups: seq<seq<Key>>, fates: seq<Fate>, last: Fate, f: Fate, x: Key)
    requires |fates| < |groups|
    ensures Occ(Pick(groups, Select(fates + [last], f)), x)
         == Occ(Pick(groups, Select(fates, f)), x) + (if last == f then Times(groups[|fates|], x) else 0)
  {
    assert (fates + [last])[..|fates|] == fates;
    if last == f {
      PickOcc(groups, Select(fates, f), |fates|, x);
    }
  }

  /** How often x occurs in the groups of one fate. */
  ghost function OccOf(groups: seq<seq<Key>>, fates: seq<Fate>, f: Fate, x: Key): nat
    requires |fates| <= |groups|
  {
    Occ(Pick(groups, Select(fates, f)), x)
  }

  lemma AllFatesOcc(groups: seq<seq<Key>>, fates: seq<Fate>, last: Fate, x: Key)
    requires |fates| < |groups|
    ensures OccOf(groups, fates + [last], Split, x) + OccOf(groups, fates + [last], Carried, x)
            + OccOf(groups, fates + [last], Finished, x)
         == OccOf(groups, fates, Split, x) + OccOf(groups, fates, Carried, x) + OccOf(groups, fates, Finished, x)
            + Times(groups[|fates|], x)
  {
    SelectOcc(groups, fates, last, Split, x);
    SelectOcc(groups, fates, last, Carried, x);
    SelectOcc(groups, fates, last, Finished, x);
  }

  /** Split, carried and finished groups are all the groups. */
  lemma {:induction false} PartitionOcc(groups: seq<seq<Key>>, fates: seq<Fate>, x: Key)
    requires |fates| <= |groups|
    ensures Occ(groups[..|fates|], x)
         == OccOf(groups, fates, Split, x) + OccOf(groups, fates, Carried, x) + OccOf(groups, fates, Finished, x)
  {
    if fates == [] {
    } else {
      var k := |fates| - 1;
      PartitionOcc(groups, fates[..k], x);
      assert groups[..k + 1] == groups[..k] + [groups[k]];
      OccSnoc(groups[..k], groups[k], x);
      AllFatesOcc(groups, fates[..k], fates[k], x);
      assert fates == fates[..k] + [fates[k]];
    }
  }

  /** The keys that occur an odd number of times in both hosts' groups and the recovered lists together. */
  ghost function Everything(st: Pair): set<Key> {
    Odd(Flatten(st.alice.groups + st.bob.groups + st.recovered))
  }

  /** What a finished group leaves behind: its residual less what was recovered from it. */
  ghost function Leftover(p: Params, st: Pair, msg: DecodingMessage, g: nat): set<Key>
    requires Inv(p, st) && Answers(st, msg) && g < |st.alice.groups|
  {
    Odd(st.alice.groups[g] + st.bob.groups[g] + Recs(p, st.alice, ReplyTo(p, st, msg))[g])
  }

  /** The leftovers of the groups that finish in this round. */
  ghost function Dropped(p: Params, st: Pair, msg: DecodingMessage): seq<set<Key>>
    requires Inv(p, st) && Answers(st, msg)
  {
    var done := Select(Fates(p, st.alice, ReplyTo(p, st, msg)), Finished);
    seq(|done|, i requires 0 <= i < |done| => Leftover(p, st, msg, done[i]))
  }

  function Times3(a: seq<Key>, b: seq<Key>, r: seq<Key>, x: Key): nat {
    Times(a, x) + Times(b, x) + Times(r, x)
  }

  lemma {:induction false} LeftoversOcc(
    a: seq<seq<Key>>, b: seq<seq<Key>>, recs: seq<seq<Key>>, ids: seq<nat>, left: seq<set<Key>>, x: Key)
    returns (total: nat)
    requires |a| == |b| == |recs| && Below(ids, |a|) && |left| == |ids|
    requires forall i :: 0 <= i < |ids| ==> (x in left[i] <==> Times3(a[ids[i]], b[ids[i]], recs[ids[i]], x) % 2 == 1)
    ensures total == Occ(Pick(a, ids), x) + Occ(Pick(b, ids), x) + Occ(Pick(recs, ids), x)
    ensures x in BigSymDiff(left) <==> total % 2 == 1
  {
    if ids == [] {
      total := 0;
    } else {
      var k := |ids| - 1;
      var init, g := ids[..k], ids[k];
      var before := LeftoversOcc(a, b, recs, init, left[..k], x);
      assert ids == init + [g];
      PickOcc(a, init, g, x);
      PickOcc(b, init, g, x);
      PickOcc(recs, init, g, x);
      var gone := Times3(a[g], b[g], recs[g], x);
      total := before + gone;
      ParitySum(total, before, gone, 0);
      SymDiffMember(BigSymDiff(left[..k]), left[k], x);
    }
  }

  lemma SymDiffMember(s: set<Key>, t: set<Key>, x: Key)
    ensures x in SymDiff(s, t) <==> (x in s) != (x in t)
  {
  }

  lemma DroppedOcc(p: Params, st: Pair, msg: DecodingMessage, x: Key) returns (total: nat)
    requires Inv(p, st) && Answers(st, msg)
    ensures var y := ReplyTo(p, st, msg);
            var done := Select(Fates(p, st.alice, y), Finished);
            total == Occ(Pick(st.alice.groups, done), x) + Occ(Pick(st.bob.groups, done), x)
              + Occ(Pick(Recs(p, st.alice, y), done), x)
    ensures x in BigSymDiff(Dropped(p, st, msg)) <==> total % 2 == 1
  {
    var y := ReplyTo(p, st, msg);
    var recs, done := Recs(p, st.alice, y), Select(Fates(p, st.alice, y), Finished);
    forall i | 0 <= i < |done|
      ensures x in Dropped(p, st, msg)[i]
              <==> Times3(st.alice.groups[done[i]], st.bob.groups[done[i]], recs[done[i]], x) % 2 == 1
    {
      LeftoverTimes(st.alice.groups[done[i]], st.bob.groups[done[i]], recs[done[i]], x);
    }
    total := LeftoversOcc(st.alice.groups, st.bob.groups, recs, done, Dropped(p, st, msg), x);
  }

  lemma ParitySum(now: nat, before: nat, gone: nat, twice: nat)
    requires now + 2 * twice == before + gone
    ensures now % 2 == 1 <==> (before % 2 == 1) != (gone % 2 == 1)
  {
  }

  lemma LeftoverTimes(a: seq<Key>, b: seq<Key>, r: seq<Key>, x: Key)
    ensures x in Odd(a + b + r) <==> Times3(a, b, r, x) % 2 == 1
  {
    TimesConcat(a + b, r, x);
    TimesConcat(a, b, x);
    OddTimes(a + b + r, x);
  }

  lemma AliceOcc(p: Params, s: Side, fates: seq<Fate>, recs: seq<seq<Key>>, x: Key)
    requires |fates| == |recs| == |s.groups| == |s.home|
    ensures Occ(AliceNext(p, s, fates, recs).groups, x)
         == Occ(Pick(s.groups, Select(fates, Split)), x)
            + Occ(Pick(s.groups, Select(fates, Carried)), x)
            + Occ(Pick(recs, Select(fates, Carried)), x)
  {
    var failed, kept := Select(fates, Split), Select(fates, Carried);
    SplitAllOcc(p, Pick(s.groups, failed), s.round, x);
    KeptOcc(s.groups, recs, kept, x);
    OccConcat(SplitAll(p, Pick(s.groups, failed), s.round), Kept(s.groups, recs, kept), x);
  }

  lemma BobOcc(p: Params, s: Side, failed: seq<nat>, ids: seq<nat>, x: Key)
    requires |s.groups| == |s.home| && Below(failed, |s.groups|) && Below(ids, |s.groups|)
    ensures Occ(BobNext(p, s, failed, ids).groups, x) == Occ(Pick(s.groups, failed), x) + Occ(Pick(s.groups, ids), x)
  {
    SplitAllOcc(p, Pick(s.groups, failed), s.round, x);
    OccConcat(SplitAll(p, Pick(s.groups, failed), s.round), Pick(s.groups, ids), x);
  }

  lemma CountFates(groups: seq<seq<Key>>, fates: seq<Fate>, x: Key)
    requires |groups| == |fates|
    ensures Occ(groups, x)
         == Occ(Pick(groups, Select(fates, Split)), x)
            + Occ(Pick(groups, Select(fates, Carried)), x)
            + Occ(Pick(groups, Select(fates, Finished)), x)
  {
    assert groups[..|fates|] == groups;
    PartitionOcc(groups, fates, x);
  }

  lemma NextOcc(p: Params, st: Pair, msg: DecodingMessage, x: Key)
    requires Inv(p, st) && Answers(st, msg)
    ensures var y := ReplyTo(p, st, msg);
            var fates, recs, n := Fates(p, st.alice, y), Recs(p, st.alice, y), Next(p, st, msg);
            && Occ(n.alice.groups, x) == Occ(Pick(st.alice.groups, Select(fates, Split)), x)
                                         + Occ(Pick(st.alice.groups, Select(fates, Carried)), x)
                                         + Occ(Pick(recs, Select(fates, Carried)), x)
            && Occ(n.bob.groups, x) == Occ(Pick(st.bob.groups, Select(fates, Split)), x)
                                       + Occ(Pick(st.bob.groups, Select(fates, Carried)), x)
            && Occ(n.recovered, x) == Occ(st.recovered, x) + Occ(recs, x)
  {
    var y := ReplyTo(p, st, msg);
    var fates, recs := Fates(p, st.alice, y), Recs(p, st.alice, y);
    SelectSplit(fates, msg.counts);
    AliceOcc(p, st.alice, fates, recs, x);
    BobOcc(p, st.bob, Failed(msg.counts), Select(fates, Carried), x);
    OccSnoc(st.recovered, Flatten(recs), x);
    OddFlatten(recs, x);
  }

  /** One round, counted for one key. */
  lemma RoundOcc(p: Params, st: Pair, msg: DecodingMessage, x: Key)
    requires Inv(p, st) && Answers(st, msg)
    ensures x in Everything(st) <==> (x in Everything(Next(p, st, msg))) != (x in BigSymDiff(Dropped(p, st, msg)))
  {
    var y, n := ReplyTo(p, st, msg), Next(p, st, msg);
    var fates, recs := Fates(p, st.alice, y), Recs(p, st.alice, y);
    var kept, done := Select(fates, Carried), Select(fates, Finished);
    NextOcc(p, st, msg, x);
    CountFates(st.alice.groups, fates, x);
    CountFates(st.bob.groups, fates, x);
    CountFates(recs, fates, x);
    FailedRecsEmpty(p, st, msg, x);
    var gone := DroppedOcc(p, st, msg, x);
    var before := EverythingOcc(st, x);
    var after := EverythingOcc(n, x);
    ParitySum(before, after, gone, Occ(Pick(recs, kept), x) + Occ(Pick(recs, done), x));
  }

  lemma EverythingOcc(st: Pair, x: Key) returns (total: nat)
    ensures total == Occ(st.alice.groups, x) + Occ(st.bob.groups, x) + Occ(st.recovered, x)
    ensures x in Everything(st) <==> total % 2 == 1
  {
    OccConcat(st.alice.groups + st.bob.groups, st.recovered, x);
    OccConcat(st.alice.groups, st.bob.groups, x);
    OddFlatten(st.alice.groups + st.bob.groups + st.recovered, x);
    total := Occ(st.alice.groups + st.bob.groups + st.recovered, x);
  }

  lemma AllEmptyOcc(ss: seq<seq<Key>>, x: Key)
    requires forall i :: 0 <= i < |ss| ==> ss[i] == []
    ensures Occ(ss, x) == 0
  {
  }

  lemma FailedRecsEmpty(p: Params, st: Pair, msg: DecodingMessage, x: Key)
    requires Inv(p, st) && Answers(st, msg)
    ensures var y := ReplyTo(p, st, msg);
            Occ(Pick(Recs(p, st.alice, y), Select(Fates(p, st.alice, y), Split)), x) == 0
  {
    var y := ReplyTo(p, st, msg);
    AllEmptyOcc(Pick(Recs(p, st.alice, y), Select(Fates(p, st.alice, y), Split)), x);
  }

  /** One round conserves everything but the leftovers it drops, whatever was decoded. */
  lemma RoundConserves(p: Params, st: Pair, msg: DecodingMessage)
    requires Inv(p, st) && Answers(st, msg)
    ensures Everything(st) == SymDiff(Everything(Next(p, st, msg)), BigSymDiff(Dropped(p, st, msg)))
  {
    forall x: Key {
      RoundOcc(p, st, msg, x);
    }
  }

  /** A leftover passed the checksum: its keys XOR to zero. */
  lemma LeftoverXorsToZero(p: Params, st: Pair, msg: DecodingMessage, g: nat)
    requires Inv(p, st) && Answers(st, msg) && g < |st.alice.groups| && 0 <= msg.counts[g]
    ensures GroupDone(p, st.alice, ReplyTo(p, st, msg), g) <==> XorSet(Leftover(p, st, msg, g)) == ZERO
  {
    var a, b, r := st.alice.groups[g], st.bob.groups[g], GroupRecovered(p, st.alice, ReplyTo(p, st, msg), g);
    ReplyAligned(p, st.bob, msg, g);
    XorOdd(a + b + r);
    XorSeqConcat(a + b, r);
    XorSeqConcat(a, b);
    XorFold(XorSeq(a), XorSeq(b), XorSeq(r));
  }

  lemma XorFold(a: Key, b: Key, r: Key)
    ensures Xor(Xor(a, b), r) == ZERO <==> b == Xor(a, r)
  {
    XorLaws(a, b, r);
    XorLaws(b, a, r);
    XorLaws(b, Xor(a, r), ZERO);
    XorLaws(Xor(a, r), b, b);
    XorCommutes(ZERO, b);
    XorZero(Xor(a, r));
  }

  lemma DroppedXorToZero(p: Params, st: Pair, msg: DecodingMessage)
    requires Inv(p, st) && Answers(st, msg)
    ensures forall i :: 0 <= i < |Dropped(p, st, msg)| ==> XorSet(Dropped(p, st, msg)[i]) == ZERO
  {
    var done := Select(Fates(p, st.alice, ReplyTo(p, st, msg)), Finished);
    forall i | 0 <= i < |done|
      ensures XorSet(Leftover(p, st, msg, done[i])) == ZERO
    {
      LeftoverXorsToZero(p, st, msg, done[i]);
    }
  }

  // ---------- whole runs ----------

  /** A run is given by what Bob's decoder reports in each round. */
  ghost predicate IsRun(p: Params, st: Pair, msgs: seq<DecodingMessage>)
    decreases |msgs|, 0
  {
    msgs == [] ||
    (var init, last := msgs[..|msgs| - 1], msgs[|msgs| - 1];
     IsRun(p, st, init) && Inv(p, Run(p, st, init)) && Answers(Run(p, st, init), last))
  }

  ghost function Run(p: Params, st: Pair, msgs: seq<DecodingMessage>): Pair
    requires IsRun(p, st, msgs)
    decreases |msgs|, 1
  {
    if msgs == [] then st else Next(p, Run(p, st, msgs[..|msgs| - 1]), msgs[|msgs| - 1])
  }

  ghost function AllDropped(p: Params, st: Pair, msgs: seq<DecodingMessage>): seq<set<Key>>
    requires IsRun(p, st, msgs)
    decreases |msgs|
  {
    if msgs == [] then []
    else
      var init, last := msgs[..|msgs| - 1], msgs[|msgs| - 1];
      AllDropped(p, st, init) + Dropped(p, Run(p, st, init), last)
  }

  /** Lock-step and home groups hold in every reachable state. */
  lemma {:induction false} RunKeepsInvariant(p: Params, st: Pair, msgs: seq<DecodingMessage>)
    requires Inv(p, st) && IsRun(p, st, msgs)
    ensures Inv(p, Run(p, st, msgs))
    ensures |Run(p, st, msgs).recovered| == |st.recovered| + |msgs|
    decreases |msgs|
  {
    if msgs == [] {
    } else {
      var init, last := msgs[..|msgs| - 1], msgs[|msgs| - 1];
      RunKeepsInvariant(p, st, init);
      NextAtHome(p, Run(p, st, init), last);
    }
  }

  /** Whatever the decoder says next, the run can go on: no reachable state is a dead end. */
  lemma RunExtends(p: Params, st: Pair, msgs: seq<DecodingMessage>, msg: DecodingMessage)
    requires Inv(p, st) && IsRun(p, st, msgs) && Answers(Run(p, st, msgs), msg)
    ensures IsRun(p, st, msgs + [msg])
    ensures Run(p, st, msgs + [msg]) == Next(p, Run(p, st, msgs), msg)
    ensures AllDropped(p, st, msgs + [msg]) == AllDropped(p, st, msgs) + Dropped(p, Run(p, st, msgs), msg)
  {
    RunKeepsInvariant(p, st, msgs);
    assert (msgs + [msg])[..|msgs|] == msgs;
  }

  /** Whole-run recovery: what was unresolved at the start is what is unresolved now, together with
      everything recovered and everything dropped; and each dropped leftover XORs to zero. */
  lemma {:induction false} RunConserves(p: Params, st: Pair, msgs: seq<DecodingMessage>)
    requires Inv(p, st) && IsRun(p, st, msgs)
    ensures Everything(st) == SymDiff(Everything(Run(p, st, msgs)), BigSymDiff(AllDropped(p, st, msgs)))
    ensures forall i :: 0 <= i < |AllDropped(p, st, msgs)| ==> XorSet(AllDropped(p, st, msgs)[i]) == ZERO
    decreases |msgs|
  {
    if msgs == [] {
    } else {
      var init, last := msgs[..|msgs| - 1], msgs[|msgs| - 1];
      var before := Run(p, st, init);
      RunConserves(p, st, init);
      RoundConserves(p, before, last);
      DroppedXorToZero(p, before, last);
      BigSymDiffConcat(AllDropped(p, st, init), Dropped(p, before, last));
      ShiftSymDiff(Everything(before), Everything(Run(p, st, msgs)),
                   BigSymDiff(Dropped(p, before, last)), BigSymDiff(AllDropped(p, st, init)));
    }
  }

  lemma ShiftSymDiff(before: set<Key>, after: set<Key>, d: set<Key>, rest: set<Key>)
    requires before == SymDiff(after, d)
    ensures SymDiff(before, rest) == SymDiff(after, SymDiff(rest, d))
  {
  }
}
