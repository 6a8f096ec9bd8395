/**
 What a round recovers, and the groups that both hosts have after it, one by one: c subgroups for every group whose
 decoding failed, then the groups with a wrong checksum, and no other.
 */
module NextGroups {
  import opened Arithmetic
  import opened Parity
  import opened PbsSpec
  import opened PbsRounds

  // ---------- what is recovered ----------

  /** The candidates of the reported bins: the other host's XOR of the bin and one's own. */
  function Candidates(p: Params, round: nat, bins: seq<nat>, theirs: seq<Key>, mine: seq<Key>): (r: seq<Key>)
    requires |bins| == |theirs|
    ensures |r| == |bins|
  {
    seq(|bins|, i requires 0 <= i < |bins| => Xor(theirs[i], XorSeq(HashedTo(p, mine, round, bins[i]))))
  }

  /** Its hashes throw a key into this bin and this group. */
  predicate HashesBack(p: Params, home: nat, round: nat, bin: nat, e: Key) {
    && p.hash(e, (p.seed + 142857 + round) % 0x1_0000_0000_0000_0000) % (p.n - 1) + 1 == bin
    && p.hash(e, p.seed % 0x1_0000_0000_0000_0000) % p.numGroups == home
  }

  /** Which of them hash back. */
  function Tests(p: Params, home: nat, round: nat, bins: seq<nat>, keys: seq<Key>): (r: seq<bool>)
    requires |bins| == |keys|
    ensures |r| == |bins|
  {
    seq(|bins|, i requires 0 <= i < |bins| => HashesBack(p, home, round, bins[i], keys[i]))
  }

  /** What is picked are the keys at these increasing indices, and these are the ones that pass. */
  ghost predicate Picked(keys: seq<Key>, passed: seq<bool>, at: seq<nat>, picked: seq<Key>) {
    && |passed| == |keys| && |picked| == |at| && Below(at, |keys|) && Increasing(at)
    && (forall j :: 0 <= j < |at| ==> picked[j] == keys[at[j]])
    && (forall i :: 0 <= i < |keys| ==> (i in at <==> passed[i]))
  }

  lemma PickedMore(keys: seq<Key>, passed: seq<bool>, at: seq<nat>, picked: seq<Key>, e: Key)
    requires Picked(keys, passed, at, picked)
    ensures Picked(keys + [e], passed + [true], at + [|keys|], picked + [e])
    ensures Picked(keys + [e], passed + [false], at, picked)
  {
  }

  lemma TestIs(p: Params, home: nat, round: nat, bin: nat, their: Key, mine: seq<Key>)
    ensures var e := Xor(their, BinXor(p, mine, round, bin));
            e == Xor(their, XorSeq(HashedTo(p, mine, round, bin)))
            && (BinId(p, e, round) == bin && GroupId(p, e) == home <==> HashesBack(p, home, round, bin, e))
  {
    OddBinsHash(p, mine, round, bin);
    HashIds(p, Xor(their, BinXor(p, mine, round, bin)), round);
  }

  lemma OneMoreTest(p: Params, home: nat, round: nat, bins: seq<nat>, theirs: seq<Key>, mine: seq<Key>, k: nat)
    requires |bins| == |theirs| == k + 1
    ensures var keys := Candidates(p, round, bins[..k], theirs[..k], mine);
            var e := Candidates(p, round, bins, theirs, mine)[k];
            Candidates(p, round, bins, theirs, mine) == keys + [e]
            && Tests(p, home, round, bins, Candidates(p, round, bins, theirs, mine))
               == Tests(p, home, round, bins[..k], keys) + [HashesBack(p, home, round, bins[k], e)]
  {
  }

  /** Exactly the candidates that hash back are recovered, in the order in which their bins were reported. */
  lemma {:induction false} RecoverIs(p: Params, home: nat, round: nat, bins: seq<nat>, theirs: seq<Key>,
                                     mine: seq<Key>)
    returns (at: seq<nat>)
    requires |bins| == |theirs|
    ensures var keys := Candidates(p, round, bins, theirs, mine);
            Picked(keys, Tests(p, home, round, bins, keys), at, Recover(p, home, round, bins, theirs, mine))
  {
    if bins == [] {
      at := [];
    } else {
      var k := |bins| - 1;
      at := RecoverIs(p, home, round, bins[..k], theirs[..k], mine);
      OneMoreTest(p, home, round, bins, theirs, mine, k);
      TestIs(p, home, round, bins[k], theirs[k], mine);
      var keys := Candidates(p, round, bins[..k], theirs[..k], mine);
      var e := Candidates(p, round, bins, theirs, mine)[k];
      PickedMore(keys, Tests(p, home, round, bins[..k], keys), at,
                 Recover(p, home, round, bins[..k], theirs[..k], mine), e);
      if HashesBack(p, home, round, bins[k], e) {
        at := at + [k];
      }
    }
  }

  // ---------- what is selected ----------

  /** The groups below k with a given fate. */
  ghost function Having(fates: seq<Fate>, f: Fate, k: nat): set<nat> {
    set g: nat | g < k && g < |fates| && fates[g] == f
  }

  lemma HavingMore(fates: seq<Fate>, f: Fate, k: nat)
    requires k < |fates|
    ensures Having(fates, f, k + 1) == Having(fates, f, k) + (if fates[k] == f then {k} else {})
    ensures |Having(fates, f, k + 1)| == |Having(fates, f, k)| + (if fates[k] == f then 1 else 0)
  {
    assert k !in Having(fates, f, k);
  }

  lemma HavingPrefix(fates: seq<Fate>, f: Fate, n: nat, k: nat)
    requires k <= n <= |fates|
    ensures Having(fates[..n], f, k) == Having(fates, f, k)
  {
  }

  lemma {:induction false} SelectSize(fates: seq<Fate>, f: Fate)
    ensures |Select(fates, f)| == |Having(fates, f, |fates|)|
  {
    if fates == [] {
    } else {
      var k := |fates| - 1;
      SelectSize(fates[..k], f);
      HavingPrefix(fates, f, k, k);
      HavingMore(fates, f, k);
    }
  }

  /** A group is selected right after those before it. */
  lemma {:induction false} SelectAt(fates: seq<Fate>, f: Fate, g: nat)
    requires g < |fates| && fates[g] == f
    ensures |Having(fates, f, g)| < |Select(fates, f)| && Select(fates, f)[|Having(fates, f, g)|] == g
    decreases |fates|
  {
    var k := |fates| - 1;
    HavingPrefix(fates, f, k, g);
    if g == k {
      SelectSize(fates[..k], f);
    } else {
      SelectAt(fates[..k], f, g);
    }
  }

  // ---------- where subgroups are put ----------

  /** The subgroups of group number f among the split ones. */
  lemma {:induction false} SplitAllAt(p: Params, groups: seq<seq<Key>>, round: nat, f: nat, i: nat)
    requires f < |groups| && i < p.c
    ensures Area(p.c, f) + i < |SplitAll(p, groups, round)|
    ensures SplitAll(p, groups, round)[Area(p.c, f) + i] == SplitTo(p, groups[f], round, i)
    decreases |groups|
  {
    var k := |groups| - 1;
    if f == k {
      SplitHash(p, groups[k], round, i);
    } else {
      SplitAllAt(p, groups[..k], round, f, i);
    }
  }

  lemma {:induction false} RepeatEachAt(p: Params, homes: seq<nat>, f: nat, i: nat)
    requires f < |homes| && i < p.c
    ensures Area(p.c, f) + i < |RepeatEach(p, homes)| && RepeatEach(p, homes)[Area(p.c, f) + i] == homes[f]
    decreases |homes|
  {
    var k := |homes| - 1;
    if f == k {
    } else {
      RepeatEachAt(p, homes[..k], f, i);
    }
  }

  // ---------- one round ----------

  /** The groups below k whose decoding failed. */
  ghost function FailedBefore(msg: DecodingMessage, k: nat): set<nat> {
    set g: nat | g < k && g < |msg.counts| && msg.counts[g] < 0
  }

  /** The groups below k that were decoded, but what is left of them does not cancel. */
  ghost function WrongBefore(p: Params, st: Pair, msg: DecodingMessage, k: nat): set<nat>
    requires Inv(p, st) && Answers(st, msg)
  {
    set g: nat | g < k && g < |msg.counts| && 0 <= msg.counts[g] && XorSet(Leftover(p, st, msg, g)) != ZERO
  }

  lemma FateIs(p: Params, st: Pair, msg: DecodingMessage, g: nat)
    requires Inv(p, st) && Answers(st, msg) && g < |msg.counts|
    ensures Fates(p, st.alice, ReplyTo(p, st, msg))[g]
         == if msg.counts[g] < 0 then Split
            else if XorSet(Leftover(p, st, msg, g)) == ZERO then Finished else Carried
  {
    if 0 <= msg.counts[g] {
      LeftoverXorsToZero(p, st, msg, g);
    }
  }

  lemma FatesBefore(p: Params, st: Pair, msg: DecodingMessage, k: nat)
    requires Inv(p, st) && Answers(st, msg)
    ensures Having(Fates(p, st.alice, ReplyTo(p, st, msg)), Split, k) == FailedBefore(msg, k)
    ensures Having(Fates(p, st.alice, ReplyTo(p, st, msg)), Carried, k) == WrongBefore(p, st, msg, k)
  {
    forall g: nat | g < |msg.counts|
      ensures Fates(p, st.alice, ReplyTo(p, st, msg))[g]
           == if msg.counts[g] < 0 then Split
              else if XorSet(Leftover(p, st, msg, g)) == ZERO then Finished else Carried
    {
      FateIs(p, st, msg, g);
    }
  }

  lemma NextSizes(p: Params, st: Pair, msg: DecodingMessage)
    requires Inv(p, st) && Answers(st, msg)
    ensures var fates, n := Fates(p, st.alice, ReplyTo(p, st, msg)), Next(p, st, msg);
            && Failed(msg.counts) == Select(fates, Split)
            && |n.alice.groups| == |n.bob.groups| == Area(p.c, |Select(fates, Split)|) + |Select(fates, Carried)|
  {
    SelectSplit(Fates(p, st.alice, ReplyTo(p, st, msg)), msg.counts);
  }

  /** How many groups the next round has. */
  lemma NextCount(p: Params, st: Pair, msg: DecodingMessage)
    requires Inv(p, st) && Answers(st, msg)
    ensures |Next(p, st, msg).alice.groups| == |Next(p, st, msg).bob.groups|
         == p.c * |FailedBefore(msg, |msg.counts|)| + |WrongBefore(p, st, msg, |msg.counts|)|
  {
    var fates := Fates(p, st.alice, ReplyTo(p, st, msg));
    NextSizes(p, st, msg);
    FatesBefore(p, st, msg, |msg.counts|);
    SelectSize(fates, Split);
    SelectSize(fates, Carried);
    AreaIsProduct(p.c, |FailedBefore(msg, |msg.counts|)|);
  }

  /** At this index Alice has one list, Bob another, and both know the same home. */
  ghost predicate HostsAt(st: Pair, at: nat, a: seq<Key>, b: seq<Key>, home: nat) {
    && at < |st.alice.groups| == |st.alice.home| && st.alice.groups[at] == a && st.alice.home[at] == home
    && at < |st.bob.groups| == |st.bob.home| && st.bob.groups[at] == b && st.bob.home[at] == home
  }

  /** The state after a round, by the ids of the groups that are split and that are kept. */
  lemma NextParts(p: Params, st: Pair, msg: DecodingMessage, failed: seq<nat>, ids: seq<nat>)
    requires Inv(p, st) && Answers(st, msg)
    requires failed == Select(Fates(p, st.alice, ReplyTo(p, st, msg)), Split)
    requires ids == Select(Fates(p, st.alice, ReplyTo(p, st, msg)), Carried)
    ensures var n, r := Next(p, st, msg), st.alice.round;
            && n.alice.groups == SplitAll(p, Pick(st.alice.groups, failed), r)
                                 + Kept(st.alice.groups, Recs(p, st.alice, ReplyTo(p, st, msg)), ids)
            && n.bob.groups == SplitAll(p, Pick(st.bob.groups, failed), r) + Pick(st.bob.groups, ids)
            && n.alice.home == n.bob.home == RepeatEach(p, Pick(st.alice.home, failed)) + Pick(st.alice.home, ids)
  {
    SelectSplit(Fates(p, st.alice, ReplyTo(p, st, msg)), msg.counts);
  }

  lemma InSecond<T>(s: seq<T>, t: seq<T>, k: nat, x: T)
    requires k < |t| && t[k] == x
    ensures |s| + k < |s + t| && (s + t)[|s| + k] == x
  {
  }

  lemma SplitPlace(p: Params, st: Pair, n: Pair, failed: seq<nat>, a: seq<seq<Key>>, b: seq<seq<Key>>, home: seq<nat>,
                   f: nat, g: nat, i: nat)
    requires |st.alice.groups| == |st.bob.groups| == |st.alice.home|
    requires Below(failed, |st.alice.groups|) && |a| == |b| == |home| && i < p.c && f < |failed| && failed[f] == g
    requires n.alice.groups == SplitAll(p, Pick(st.alice.groups, failed), st.alice.round) + a
    requires n.bob.groups == SplitAll(p, Pick(st.bob.groups, failed), st.alice.round) + b
    requires n.alice.home == n.bob.home == RepeatEach(p, Pick(st.alice.home, failed)) + home
    ensures HostsAt(n, Area(p.c, f) + i, SplitTo(p, st.alice.groups[g], st.alice.round, i),
                    SplitTo(p, st.bob.groups[g], st.alice.round, i), st.alice.home[g])
  {
    SplitAllAt(p, Pick(st.alice.groups, failed), st.alice.round, f, i);
    SplitAllAt(p, Pick(st.bob.groups, failed), st.alice.round, f, i);
    RepeatEachAt(p, Pick(st.alice.home, failed), f, i);
  }

  /** Every group whose decoding failed is taken apart by its hash of this round, on both sides and in the same
      place: after the failed groups before it. */
  lemma FailedAreSplit(p: Params, st: Pair, msg: DecodingMessage, g: nat, i: nat, at: nat)
    requires Inv(p, st) && Answers(st, msg) && g < |msg.counts| && msg.counts[g] < 0
    requires i < p.c && at == p.c * |FailedBefore(msg, g)| + i
    ensures HostsAt(Next(p, st, msg), at, SplitTo(p, st.alice.groups[g], st.alice.round, i),
                    SplitTo(p, st.bob.groups[g], st.alice.round, i), st.alice.home[g])
  {
    var fates := Fates(p, st.alice, ReplyTo(p, st, msg));
    var failed, ids := Select(fates, Split), Select(fates, Carried);
    FateIs(p, st, msg, g);
    FatesBefore(p, st, msg, g);
    SelectAt(fates, Split, g);
    NextParts(p, st, msg, failed, ids);
    AreaIsProduct(p.c, |FailedBefore(msg, g)|);
    SplitPlace(p, st, Next(p, st, msg), failed, Kept(st.alice.groups, Recs(p, st.alice, ReplyTo(p, st, msg)), ids),
               Pick(st.bob.groups, ids), Pick(st.alice.home, ids), |FailedBefore(msg, g)|, g, i);
  }

  lemma KeptIndex(p: Params, st: Pair, msg: DecodingMessage, g: nat, failed: seq<nat>, ids: seq<nat>)
    requires Inv(p, st) && Answers(st, msg) && g < |msg.counts| && 0 <= msg.counts[g]
    requires XorSet(Leftover(p, st, msg, g)) != ZERO
    requires failed == Select(Fates(p, st.alice, ReplyTo(p, st, msg)), Split)
    requires ids == Select(Fates(p, st.alice, ReplyTo(p, st, msg)), Carried)
    ensures |failed| == |FailedBefore(msg, |msg.counts|)|
    ensures |WrongBefore(p, st, msg, g)| < |ids| && ids[|WrongBefore(p, st, msg, g)|] == g
  {
    var fates := Fates(p, st.alice, ReplyTo(p, st, msg));
    FateIs(p, st, msg, g);
    FatesBefore(p, st, msg, g);
    FatesBefore(p, st, msg, |msg.counts|);
    SelectAt(fates, Carried, g);
    SelectSize(fates, Split);
  }

  lemma KeptPlace(st: Pair, n: Pair, recs: seq<seq<Key>>, ids: seq<nat>, a: seq<seq<Key>>, b: seq<seq<Key>>,
                  home: seq<nat>, f: nat, g: nat)
    requires |st.alice.groups| == |st.bob.groups| == |st.alice.home| == |recs| && Below(ids, |st.alice.groups|)
    requires |a| == |b| == |home| && f < |ids| && ids[f] == g
    requires n.alice.groups == a + Kept(st.alice.groups, recs, ids)
    requires n.bob.groups == b + Pick(st.bob.groups, ids)
    requires n.alice.home == n.bob.home == home + Pick(st.alice.home, ids)
    ensures HostsAt(n, |a| + f, st.alice.groups[g] + recs[g], st.bob.groups[g], st.alice.home[g])
  {
    InSecond(a, Kept(st.alice.groups, recs, ids), f, st.alice.groups[g] + recs[g]);
    InSecond(b, Pick(st.bob.groups, ids), f, st.bob.groups[g]);
    InSecond(home, Pick(st.alice.home, ids), f, st.alice.home[g]);
  }

  /** Every group with a wrong checksum is kept, on Alice's side with what was recovered from it, after all subgroups
      and the kept groups before it. */
  lemma WrongAreKept(p: Params, st: Pair, msg: DecodingMessage, g: nat, at: nat)
    requires Inv(p, st) && Answers(st, msg) && g < |msg.counts| && 0 <= msg.counts[g]
    requires XorSet(Leftover(p, st, msg, g)) != ZERO
    requires at == p.c * |FailedBefore(msg, |msg.counts|)| + |WrongBefore(p, st, msg, g)|
    ensures HostsAt(Next(p, st, msg), at, st.alice.groups[g] + Recs(p, st.alice, ReplyTo(p, st, msg))[g],
                    st.bob.groups[g], st.alice.home[g])
  {
    var fates, recs := Fates(p, st.alice, ReplyTo(p, st, msg)), Recs(p, st.alice, ReplyTo(p, st, msg));
    var failed, ids := Select(fates, Split), Select(fates, Carried);
    KeptIndex(p, st, msg, g, failed, ids);
    NextParts(p, st, msg, failed, ids);
    AreaIsProduct(p.c, |failed|);
    KeptPlace(st, Next(p, st, msg), recs, ids, SplitAll(p, Pick(st.alice.groups, failed), st.alice.round),
              SplitAll(p, Pick(st.bob.groups, failed), st.alice.round),
              RepeatEach(p, Pick(st.alice.home, failed)), |WrongBefore(p, st, msg, g)|, g);
  }
}
