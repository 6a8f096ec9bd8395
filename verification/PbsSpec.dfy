/**
 What one host of the protocol holds between two messages, and what one round does to it.

 The specification keeps only what the rounds are about: the groups of keys, the group of the first
 round each descends from (its home), and the round number. Bin XORs, checksums and bitmaps are
 recomputed from the groups here; the class in PbsSketch.dfy keeps them in flat arrays instead.
 */
module PbsSpec {
  import opened Arithmetic
  import opened Bits
  import opened Parity

  const SEED_OFFSET: nat := 142857
  const BCH_FAILURE_PARTITION_SEED: nat := 0x5A8923A

  /** `hash(key, seed)` stands for the 64-bit hash; nothing is assumed about it. */
  datatype RawParams = RawParams(hash: (Key, nat) -> nat, m: nat, n: nat, t: nat, c: nat, numGroups: nat, seed: nat)

  /** n = 2^m - 1 bins per group (bin 0 unused), capacity t, c subgroups when decoding fails. */
  type Params = p: RawParams | 2 <= p.m && 3 <= p.n == Pow2(p.m) - 1 && 1 <= p.t && 1 <= p.c && 1 <= p.numGroups
    witness RawParams((_, _) => 0, 2, 3, 1, 3, 1, 0)

  function GroupId(p: Params, e: Key): (g: nat)
    ensures g < p.numGroups
  {
    Mod(p.hash(e, Mod(p.seed, WORD)), p.numGroups)
  }

  function BinId(p: Params, e: Key, round: nat): (b: nat)
    ensures 1 <= b < p.n
  {
    Mod(p.hash(e, Mod(p.seed + SEED_OFFSET + round, WORD)), p.n - 1) + 1
  }

  function SplitId(p: Params, e: Key, round: nat): (i: nat)
    ensures i < p.c
  {
    Mod(p.hash(e, Mod(BCH_FAILURE_PARTITION_SEED + round, WORD)), p.c)
  }

  /** The three ids as remainders of 64-bit hashes; the seeds of the bins and of the split change every round. */
  lemma HashIds(p: Params, e: Key, round: nat)
    ensures GroupId(p, e) == p.hash(e, p.seed % 0x1_0000_0000_0000_0000) % p.numGroups
    ensures BinId(p, e, round) == p.hash(e, (p.seed + 142857 + round) % 0x1_0000_0000_0000_0000) % (p.n - 1) + 1
    ensures SplitId(p, e, round) == p.hash(e, (0x5A8923A + round) % 0x1_0000_0000_0000_0000) % p.c
  {
    ModIs(p.seed, WORD);
    ModIs(p.seed + SEED_OFFSET + round, WORD);
    ModIs(BCH_FAILURE_PARTITION_SEED + round, WORD);
    ModIs(p.hash(e, p.seed % WORD), p.numGroups);
    ModIs(p.hash(e, (p.seed + SEED_OFFSET + round) % WORD), p.n - 1);
    ModIs(p.hash(e, (BCH_FAILURE_PARTITION_SEED + round) % WORD), p.c);
  }

  function BinIs(p: Params, round: nat, b: nat): Key -> bool {
    e => BinId(p, e, round) == b
  }

  function SplitIs(p: Params, round: nat, i: nat): Key -> bool {
    e => SplitId(p, e, round) == i
  }

  // ---------- one group ----------

  function InBin(p: Params, s: seq<Key>, round: nat, b: nat): seq<Key> {
    Filter(s, BinIs(p, round, b))
  }

  function BinXor(p: Params, s: seq<Key>, round: nat, b: nat): Key {
    XorSeq(InBin(p, s, round, b))
  }

  /** The parity bitmap: the bins that hold an odd number of the group's list. */
  function OddBins(p: Params, s: seq<Key>, round: nat): set<nat> {
    set b: nat | 1 <= b < p.n && |InBin(p, s, round, b)| % 2 == 1
  }

  function BinXors(p: Params, s: seq<Key>, round: nat, bins: seq<nat>): (r: seq<Key>)
    ensures |r| == |bins|
  {
    seq(|bins|, i requires 0 <= i < |bins| => BinXor(p, s, round, bins[i]))
  }

  /** The candidates that hash back to their bin and to their group, in the order of the bins. */
  function Recover(p: Params, home: nat, round: nat, bins: seq<nat>, theirs: seq<Key>, mine: seq<Key>): seq<Key>
    requires |bins| == |theirs|
  {
    if bins == [] then []
    else
      var k := |bins| - 1;
      var rest := Recover(p, home, round, bins[..k], theirs[..k], mine);
      var e := Xor(theirs[k], BinXor(p, mine, round, bins[k]));
      if BinId(p, e, round) == bins[k] && GroupId(p, e) == home then rest + [e] else rest
  }

  function ThreeWay(p: Params, s: seq<Key>, round: nat): (r: seq<seq<Key>>)
    ensures |r| == p.c
  {
    seq(p.c, i requires 0 <= i < p.c => Filter(s, SplitIs(p, round, i)))
  }

  lemma {:induction false} FilterSame(s: seq<Key>, f: Key -> bool, g: Key -> bool)
    requires forall e :: e in s ==> f(e) == g(e)
    ensures Filter(s, f) == Filter(s, g)
  {
    if s == [] {
    } else {
      FilterSame(s[..|s| - 1], f, g);
    }
  }

  /** The keys of a list that the hash throws into bin b. */
  function HashedTo(p: Params, s: seq<Key>, round: nat, b: nat): seq<Key> {
    Filter(s, (e: Key) => p.hash(e, (p.seed + 142857 + round) % 0x1_0000_0000_0000_0000) % (p.n - 1) + 1 == b)
  }

  /** A bin is marked if and only if the hash throws an odd number of keys there. */
  lemma OddBinsHash(p: Params, s: seq<Key>, round: nat, b: nat)
    ensures InBin(p, s, round, b) == HashedTo(p, s, round, b)
    ensures b in OddBins(p, s, round) <==> 1 <= b < p.n && |HashedTo(p, s, round, b)| % 2 == 1
  {
    forall e | e in s
      ensures BinIs(p, round, b)(e)
           == (p.hash(e, (p.seed + 142857 + round) % 0x1_0000_0000_0000_0000) % (p.n - 1) + 1 == b)
    {
      HashIds(p, e, round);
    }
    FilterSame(s, BinIs(p, round, b),
               (e: Key) => p.hash(e, (p.seed + 142857 + round) % 0x1_0000_0000_0000_0000) % (p.n - 1) + 1 == b);
  }

  /** The keys of a list that the hash of a failed decoding in this round throws into subgroup i. */
  function SplitTo(p: Params, s: seq<Key>, round: nat, i: nat): seq<Key> {
    Filter(s, (e: Key) => p.hash(e, (0x5A8923A + round) % 0x1_0000_0000_0000_0000) % p.c == i)
  }

  /** A subgroup holds the keys that their hash of this round puts there, in the order they had. */
  lemma SplitHash(p: Params, s: seq<Key>, round: nat, i: nat)
    requires i < p.c
    ensures ThreeWay(p, s, round)[i] == SplitTo(p, s, round, i)
  {
    forall e | e in s
      ensures SplitIs(p, round, i)(e) == (p.hash(e, (0x5A8923A + round) % 0x1_0000_0000_0000_0000) % p.c == i)
    {
      HashIds(p, e, round);
    }
    FilterSame(s, SplitIs(p, round, i),
               (e: Key) => p.hash(e, (0x5A8923A + round) % 0x1_0000_0000_0000_0000) % p.c == i);
  }

  // ---------- messages ----------

  /** Per group the number of differing bins, or -1; all bins in one list. */
  datatype DecodingMessage = DecodingMessage(counts: seq<int>, diffs: seq<nat>)

  datatype Reply = Reply(msg: DecodingMessage, xors: seq<Key>, checksums: seq<Key>)

  function Positive(x: int): nat {
    if x < 0 then 0 else x
  }

  /** Where group g's bins start in the list of all bins. */
  function Offset(counts: seq<int>, g: nat): nat
    requires g <= |counts|
  {
    if g == 0 then 0 else Offset(counts, g - 1) + Positive(counts[g - 1])
  }

  /** How many groups before g were decoded: the index of g's checksum. */
  function Rank(counts: seq<int>, g: nat): nat
    requires g <= |counts|
  {
    if g == 0 then 0 else Rank(counts, g - 1) + (if counts[g - 1] < 0 then 0 else 1)
  }

  lemma OffsetMonotone(counts: seq<int>, g: nat, h: nat)
    requires g <= h <= |counts|
    ensures Offset(counts, g) <= Offset(counts, h)
    ensures Rank(counts, g) <= Rank(counts, h)
    decreases h
  {
    if g == h {
    } else {
      OffsetMonotone(counts, g, h - 1);
    }
  }

  predicate WellSized(msg: DecodingMessage) {
    |msg.diffs| == Offset(msg.counts, |msg.counts|)
  }

  predicate Complete(y: Reply) {
    && WellSized(y.msg)
    && Offset(y.msg.counts, |y.msg.counts|) <= |y.xors|
    && Rank(y.msg.counts, |y.msg.counts|) <= |y.checksums|
  }

  function Bins(msg: DecodingMessage, g: nat): (r: seq<nat>)
    requires WellSized(msg) && g < |msg.counts|
    ensures |r| == Positive(msg.counts[g])
  {
    OffsetMonotone(msg.counts, g + 1, |msg.counts|);
    msg.diffs[Offset(msg.counts, g)..Offset(msg.counts, g + 1)]
  }

  function Theirs(y: Reply, g: nat): (r: seq<Key>)
    requires Complete(y) && g < |y.msg.counts|
    ensures |r| == Positive(y.msg.counts[g])
  {
    OffsetMonotone(y.msg.counts, g + 1, |y.msg.counts|);
    y.xors[Offset(y.msg.counts, g)..Offset(y.msg.counts, g + 1)]
  }

  function Checksum(y: Reply, g: nat): Key
    requires Complete(y) && g < |y.msg.counts| && 0 <= y.msg.counts[g]
  {
    OffsetMonotone(y.msg.counts, g + 1, |y.msg.counts|);
    y.checksums[Rank(y.msg.counts, g)]
  }

  // ---------- one host ----------

  datatype Side = Side(groups: seq<seq<Key>>, home: seq<nat>, round: nat)

  /** Every key of a group, fakes included, hashes to the group's home. */
  ghost predicate AtHome(p: Params, s: Side) {
    && |s.groups| == |s.home|
    && forall g, e :: 0 <= g < |s.groups| && e in s.groups[g] ==> GroupId(p, e) == s.home[g]
  }

  predicate Fits(s: Side, y: Reply) {
    Complete(y) && |y.msg.counts| == |s.groups| == |s.home|
  }

  function GroupRecovered(p: Params, s: Side, y: Reply, g: nat): seq<Key>
    requires Fits(s, y) && g < |s.groups|
  {
    Recover(p, s.home[g], s.round, Bins(y.msg, g), Theirs(y, g), s.groups[g])
  }

  predicate GroupDone(p: Params, s: Side, y: Reply, g: nat)
    requires Fits(s, y) && g < |s.groups| && 0 <= y.msg.counts[g]
  {
    Checksum(y, g) == Xor(XorSeq(s.groups[g]), XorSeq(GroupRecovered(p, s, y, g)))
  }

  /** Decoding failed; decoded but the checksum is wrong; or done. */
  datatype Fate = Split | Carried | Finished

  function Fates(p: Params, s: Side, y: Reply): (r: seq<Fate>)
    requires Fits(s, y)
    ensures |r| == |s.groups|
  {
    seq(|s.groups|, g requires 0 <= g < |s.groups| =>
          if y.msg.counts[g] < 0 then Split else if GroupDone(p, s, y, g) then Finished else Carried)
  }

  /** What is recovered from each group (nothing where decoding failed). */
  function Recs(p: Params, s: Side, y: Reply): (r: seq<seq<Key>>)
    requires Fits(s, y)
    ensures |r| == |s.groups|
  {
    seq(|s.groups|, g requires 0 <= g < |s.groups| => GroupRecovered(p, s, y, g))
  }

  ghost predicate Increasing(ids: seq<nat>) {
    forall i, j :: 0 <= i < j < |ids| ==> ids[i] < ids[j]
  }

  /** The groups with a given fate, in increasing order. */
  function Select(fates: seq<Fate>, f: Fate): (ids: seq<nat>)
    ensures Below(ids, |fates|) && Increasing(ids)
    ensures forall i :: 0 <= i < |ids| ==> fates[ids[i]] == f
  {
    if fates == [] then []
    else
      var rest := Select(fates[..|fates| - 1], f);
      if fates[|fates| - 1] == f then rest + [|fates| - 1] else rest
  }

  /** The groups below k whose decoding failed. */
  function FailedBelow(counts: seq<int>, k: nat): (ids: seq<nat>)
    requires k <= |counts|
    ensures Below(ids, k)
  {
    if k == 0 then []
    else
      var rest := FailedBelow(counts, k - 1);
      if counts[k - 1] < 0 then rest + [k - 1] else rest
  }

  function Failed(counts: seq<int>): (ids: seq<nat>)
    ensures Below(ids, |counts|)
  {
    FailedBelow(counts, |counts|)
  }

  lemma SelectSplitBelow(fates: seq<Fate>, counts: seq<int>, k: nat)
    requires k <= |fates| == |counts|
    requires forall g :: 0 <= g < |counts| ==> (fates[g] == Split <==> counts[g] < 0)
    ensures Select(fates[..k], Split) == FailedBelow(counts, k)
  {
    if k == 0 {
    } else {
      SelectSplitBelow(fates, counts, k - 1);
      assert fates[..k][..k - 1] == fates[..k - 1];
    }
  }

  lemma SelectSplit(fates: seq<Fate>, counts: seq<int>)
    requires |fates| == |counts|
    requires forall g :: 0 <= g < |counts| ==> (fates[g] == Split <==> counts[g] < 0)
    ensures Select(fates, Split) == Failed(counts)
  {
    SelectSplitBelow(fates, counts, |counts|);
    assert fates[..|fates|] == fates;
  }

  function Pick<T>(s: seq<T>, ids: seq<nat>): (r: seq<T>)
    requires Below(ids, |s|)
    ensures |r| == |ids|
  {
    seq(|ids|, i requires 0 <= i < |ids| => s[ids[i]])
  }

  // ---------- one round ----------

  /** The c subgroups of each failed group, in order. */
  function SplitAll(p: Params, groups: seq<seq<Key>>, round: nat): (r: seq<seq<Key>>)
    ensures |r| == Area(p.c, |groups|)
  {
    if groups == [] then []
    else SplitAll(p, groups[..|groups| - 1], round) + ThreeWay(p, groups[|groups| - 1], round)
  }

  function Copies<T>(k: nat, x: T): (r: seq<T>)
    ensures |r| == k && forall i :: 0 <= i < k ==> r[i] == x
  {
    seq(k, _ => x)
  }

  function RepeatEach(p: Params, homes: seq<nat>): (r: seq<nat>)
    ensures |r| == Area(p.c, |homes|)
  {
    if homes == [] then []
    else RepeatEach(p, homes[..|homes| - 1]) + Copies(p.c, homes[|homes| - 1])
  }

  /** A group with a wrong checksum is kept with what was recovered from it appended. */
  function Kept(groups: seq<seq<Key>>, recs: seq<seq<Key>>, ids: seq<nat>): (r: seq<seq<Key>>)
    requires |recs| == |groups| && Below(ids, |groups|)
    ensures |r| == |ids|
  {
    seq(|ids|, i requires 0 <= i < |ids| => groups[ids[i]] + recs[ids[i]])
  }

  /** Alice after checking a reply: failed groups split first, then exceptions carried over. */
  function AliceNext(p: Params, s: Side, fates: seq<Fate>, recs: seq<seq<Key>>): Side
    requires |fates| == |recs| == |s.groups| == |s.home|
  {
    var failed, ids := Select(fates, Split), Select(fates, Carried);
    Side(SplitAll(p, Pick(s.groups, failed), s.round) + Kept(s.groups, recs, ids),
         RepeatEach(p, Pick(s.home, failed)) + Pick(s.home, ids),
         s.round + 1)
  }

  /** Bob after decoding and then hearing which groups had a wrong checksum. */
  function BobNext(p: Params, s: Side, failed: seq<nat>, ids: seq<nat>): Side
    requires |s.groups| == |s.home| && Below(failed, |s.groups|) && Below(ids, |s.groups|)
  {
    Side(SplitAll(p, Pick(s.groups, failed), s.round) + Pick(s.groups, ids),
         RepeatEach(p, Pick(s.home, failed)) + Pick(s.home, ids),
         s.round + 1)
  }

  /** What Bob sends back: the XORs of the reported bins and the checksums, group after group. */
  function BobXors(p: Params, s: Side, msg: DecodingMessage, k: nat): seq<Key>
    requires WellSized(msg) && k <= |msg.counts| == |s.groups|
  {
    if k == 0 then []
    else
      var rest := BobXors(p, s, msg, k - 1);
      if msg.counts[k - 1] < 0 then rest else rest + BinXors(p, s.groups[k - 1], s.round, Bins(msg, k - 1))
  }

  function BobChecksums(s: Side, counts: seq<int>, k: nat): seq<Key>
    requires k <= |counts| == |s.groups|
  {
    if k == 0 then []
    else
      var rest := BobChecksums(s, counts, k - 1);
      if counts[k - 1] < 0 then rest else rest + [XorSeq(s.groups[k - 1])]
  }

  function BobReply(p: Params, s: Side, msg: DecodingMessage): Reply
    requires WellSized(msg) && |msg.counts| == |s.groups|
  {
    Reply(msg, BobXors(p, s, msg, |s.groups|), BobChecksums(s, msg.counts, |s.groups|))
  }

  lemma BobXorsAt(p: Params, s: Side, msg: DecodingMessage, k: nat, g: nat)
    requires WellSized(msg) && g < k <= |msg.counts| == |s.groups|
    ensures |BobXors(p, s, msg, k)| == Offset(msg.counts, k)
    ensures Offset(msg.counts, g + 1) <= Offset(msg.counts, k)
    ensures BobXors(p, s, msg, k)[Offset(msg.counts, g)..Offset(msg.counts, g + 1)]
         == BinXors(p, s.groups[g], s.round, Bins(msg, g))
  {
    BobXorsLength(p, s, msg, k - 1);
    OffsetMonotone(msg.counts, g + 1, k);
    if g + 1 == k {
    } else {
      BobXorsAt(p, s, msg, k - 1, g);
    }
  }

  lemma BobXorsLength(p: Params, s: Side, msg: DecodingMessage, k: nat)
    requires WellSized(msg) && k <= |msg.counts| == |s.groups|
    ensures |BobXors(p, s, msg, k)| == Offset(msg.counts, k)
  {
  }

  lemma BobChecksumsAt(s: Side, counts: seq<int>, k: nat)
    requires k <= |counts| == |s.groups|
    ensures |BobChecksums(s, counts, k)| == Rank(counts, k)
    ensures forall g :: 0 <= g < k && 0 <= counts[g] ==>
                          Rank(counts, g) < Rank(counts, k)
                            && BobChecksums(s, counts, k)[Rank(counts, g)] == XorSeq(s.groups[g])
  {
  }

  /** Index alignment: the slices Alice cuts out of Bob's reply are the XORs and checksum of that group. */
  lemma ReplyAligned(p: Params, s: Side, msg: DecodingMessage, g: nat)
    requires WellSized(msg) && |msg.counts| == |s.groups|
    ensures Complete(BobReply(p, s, msg))
    ensures g < |s.groups| ==> Theirs(BobReply(p, s, msg), g) == BinXors(p, s.groups[g], s.round, Bins(msg, g))
    ensures g < |s.groups| && 0 <= msg.counts[g] ==> Checksum(BobReply(p, s, msg), g) == XorSeq(s.groups[g])
  {
    BobXorsLength(p, s, msg, |s.groups|);
    BobChecksumsAt(s, msg.counts, |s.groups|);
    if g < |s.groups| {
      BobXorsAt(p, s, msg, |s.groups|, g);
    }
  }
}
