/**
 A run that completes, loses nothing, and is still folded into a wrong difference.

 Decoding fails in the first round and the only group is split. In the second round one subgroup recovers a key
 that really differs while another recovers the same key as a fake, so that round's list names it twice; the
 third round cancels the fake by naming the key once more. The XOR sense of the three lists is the difference, but
 folding keeps the key after the second round and drops it after the third.
 */
module RepeatedFake {
  import opened Parity
  import opened PbsSpec
  import opened PbsRounds
  import opened PbsTheorems
  import opened Fakes
  import opened SetDifference

  // ---------- the keys and their hash ----------

  const OTHERS: seq<Key> := [Key({7}), Key({8}), Key({9}), Key({10}), Key({11}), Key({12})]
  const LEFT: seq<Key> := [X] + OTHERS
  const RIGHT: seq<Key> := TRIPLE + COUPLE
  const KEYS: seq<Key> := LEFT + RIGHT

  /** The place of each of the keys in the list. */
  function Place(e: Key): (n: nat)
    ensures n < 12
  {
    if 7 in e.ones then 1
    else if 8 in e.ones then 2
    else if 9 in e.ones then 3
    else if 10 in e.ones then 4
    else if 11 in e.ones then 5
    else if 12 in e.ones then 6
    else if 3 in e.ones then 10
    else if 4 in e.ones then 11
    else if 1 in e.ones then if 0 in e.ones then 9 else 7
    else if 2 in e.ones then 8
    else 0
  }

  /** Where the second round throws the keys: X and the triple into one bin, the couple into another. */
  function SecondHash(place: nat): nat {
    if place == 0 then 0 else if place <= 6 then place + 1 else if place <= 9 then 0 else 1
  }

  /** The split takes the first seven keys apart from the others; all seeds but that of the second round throw all
      keys apart. */
  function Table(e: Key, seed: nat): nat {
    if seed == SEED_OFFSET + 1 then SecondHash(Place(e))
    else if seed == BCH_FAILURE_PARTITION_SEED then if Place(e) <= 6 then 0 else 1
    else Place(e)
  }

  const TABLE: Params := RawParams(Table, 6, 63, 11, 3, 1, 0)

  lemma BinAt(e: Key, round: nat)
    requires round <= 2
    ensures BinId(TABLE, e, round) == 1 + if round == 1 then SecondHash(Place(e)) else Place(e)
  {
  }

  lemma SplitAt(e: Key)
    ensures SplitId(TABLE, e, 0) == if Place(e) <= 6 then 0 else 1
  {
  }

  lemma GroupAt(e: Key)
    ensures GroupId(TABLE, e) == 0
  {
  }

  lemma Places()
    ensures forall i :: 0 <= i < 7 ==> Place(LEFT[i]) == i
    ensures forall i :: 0 <= i < 3 ==> Place(TRIPLE[i]) == 7 + i
    ensures forall i :: 0 <= i < 2 ==> Place(COUPLE[i]) == 10 + i
  {
    assert LEFT[1..] == OTHERS;
  }

  lemma AllPlaces()
    ensures forall i :: 0 <= i < 12 ==> Place(KEYS[i]) == i
  {
    Places();
    assert forall i :: 0 <= i < 7 ==> KEYS[i] == LEFT[i];
    assert forall i :: 0 <= i < 3 ==> KEYS[7 + i] == TRIPLE[i];
    assert forall i :: 0 <= i < 2 ==> KEYS[10 + i] == COUPLE[i];
  }

  // ---------- groups whose differing keys are all in different bins ----------

  lemma IdealBins(p: Params, st: Pair, g: nat, keys: seq<Key>, bins: seq<nat>)
    requires LockStep(st) && g < |st.alice.groups| && Residual(st, g) == ToSet(keys)
    requires |bins| == |keys| && Distinct(bins)
    requires forall i :: 0 <= i < |keys| ==> BinId(p, keys[i], st.alice.round) == bins[i]
    ensures Ideal(p, st, g) && ToSet(bins) == Merged(p, st, g)
  {
    forall b: nat
      ensures b in bins <==> b in Merged(p, st, g)
    {
      if 1 <= b < p.n {
        BinFacts(p, st.alice.groups[g], st.bob.groups[g], st.alice.round, b);
        OneInBin(p, ToSet(keys), keys, bins, st.alice.round, b);
      }
    }
  }

  lemma OneInBin(p: Params, all: set<Key>, keys: seq<Key>, bins: seq<nat>, round: nat, b: nat)
    requires all == ToSet(keys) && |bins| == |keys| && Distinct(bins)
    requires forall i :: 0 <= i < |keys| ==> BinId(p, keys[i], round) == bins[i]
    ensures b in bins <==> |InBinSet(p, all, round, b)| % 2 == 1
  {
    if b in bins {
      var i :| 0 <= i < |bins| && bins[i] == b;
      assert InBinSet(p, all, round, b) == {keys[i]};
    } else {
      assert InBinSet(p, all, round, b) == {};
    }
  }

  // ---------- the shapes of the three rounds ----------

  lemma SelectSnoc(fates: seq<Fate>, last: Fate, f: Fate)
    ensures Select(fates + [last], f) == Select(fates, f) + if last == f then [|fates|] else []
  {
    assert (fates + [last])[..|fates|] == fates;
  }

  lemma SelectOnly(last: Fate, f: Fate)
    ensures Select([last], f) == if f == last then [0] else []
  {
    SelectSnoc([], last, f);
    assert [] + [last] == [last];
  }

  /** Three groups, of which only the middle one is carried over. */
  ghost predicate MiddleOnly(fates: seq<Fate>) {
    |fates| == 3 && Select(fates, Split) == [] && Select(fates, Carried) == [1] && Select(fates, Finished) == [0, 2]
  }

  lemma SelectFirst(fates: seq<Fate>, f: Fate)
    requires fates == [Finished]
    ensures Select(fates, f) == if f == Finished then [0] else []
  {
    SelectOnly(Finished, f);
  }

  lemma SelectTwo(fates: seq<Fate>, f: Fate)
    requires fates == [Finished] + [Carried]
    ensures Select(fates, f) == (if f == Finished then [0] else []) + if f == Carried then [1] else []
  {
    SelectFirst([Finished], f);
    SelectSnoc([Finished], Carried, f);
  }

  lemma SelectThree(fates: seq<Fate>, f: Fate)
    requires fates == ([Finished] + [Carried]) + [Finished]
    ensures Select(fates, f) == if f == Finished then [0, 2] else if f == Carried then [1] else []
  {
    SelectTwo([Finished] + [Carried], f);
    SelectSnoc([Finished] + [Carried], Finished, f);
  }

  lemma ThreeFates(fates: seq<Fate>)
    requires |fates| == 3 && fates[0] == Finished && fates[1] == Carried && fates[2] == Finished
    ensures MiddleOnly(fates)
  {
    assert fates == ([Finished] + [Carried]) + [Finished];
    SelectThree(fates, Split);
    SelectThree(fates, Carried);
    SelectThree(fates, Finished);
  }

  lemma SplitOnly(p: Params, groups: seq<seq<Key>>, round: nat)
    requires |groups| == 1
    ensures SplitAll(p, Pick(groups, [0]), round) == ThreeWay(p, groups[0], round)
  {
    assert Pick(groups, [0])[..0] == [];
    assert SplitAll(p, [], round) == [];
  }

  lemma RepeatOnly(p: Params, home: seq<nat>)
    requires |home| == 1
    ensures RepeatEach(p, Pick(home, [0])) == Copies(p.c, home[0])
  {
    assert Pick(home, [0])[..0] == [];
    assert RepeatEach(p, []) == [];
  }

  lemma AliceSplits(p: Params, s: Side, recs: seq<seq<Key>>)
    requires |recs| == |s.groups| == |s.home| == 1
    ensures AliceNext(p, s, [Split], recs)
         == Side(ThreeWay(p, s.groups[0], s.round), Copies(p.c, s.home[0]), s.round + 1)
  {
    SelectOnly(Split, Split);
    SelectOnly(Split, Carried);
    SplitOnly(p, s.groups, s.round);
    RepeatOnly(p, s.home);
    assert Kept(s.groups, recs, []) == [] && Pick(s.home, []) == [];
  }

  lemma BobSplits(p: Params, s: Side)
    requires |s.groups| == |s.home| == 1
    ensures BobNext(p, s, [0], [])
         == Side(ThreeWay(p, s.groups[0], s.round), Copies(p.c, s.home[0]), s.round + 1)
  {
    SplitOnly(p, s.groups, s.round);
    RepeatOnly(p, s.home);
    assert Pick(s.groups, []) == [] && Pick(s.home, []) == [];
  }

  lemma FlattenOne(list: seq<Key>)
    ensures Flatten([list]) == list
  {
    FlattenSnoc([], list);
    assert [] + [list] == [list] && [] + list == list;
  }

  lemma OnlyFails(p: Params, st: Pair, msg: DecodingMessage)
    requires Inv(p, st) && Answers(st, msg) && msg.counts == [-1]
    ensures Fates(p, st.alice, ReplyTo(p, st, msg)) == [Split] && Recs(p, st.alice, ReplyTo(p, st, msg)) == [[]]
    ensures Failed(msg.counts) == [0]
  {
    assert Recs(p, st.alice, ReplyTo(p, st, msg))[0] == [];
    SelectOnly(Split, Split);
    SelectSplit([Split], msg.counts);
  }

  /** The only group could not be decoded. */
  lemma OneGroupSplits(p: Params, st: Pair, msg: DecodingMessage)
    requires Inv(p, st) && Answers(st, msg) && msg.counts == [-1]
    ensures var r, home := st.alice.round, Copies(p.c, st.alice.home[0]);
            Next(p, st, msg) == Pair(Side(ThreeWay(p, st.alice.groups[0], r), home, r + 1),
                                     Side(ThreeWay(p, st.bob.groups[0], r), home, r + 1),
                                     st.recovered + [[]])
  {
    OnlyFails(p, st, msg);
    AliceSplits(p, st.alice, [[]]);
    BobSplits(p, st.bob);
    SelectOnly(Split, Carried);
    FlattenOne([]);
  }

  lemma NoneDropped(p: Params, st: Pair, msg: DecodingMessage)
    requires Inv(p, st) && Answers(st, msg) && msg.counts == [-1]
    ensures Dropped(p, st, msg) == []
  {
    OnlyFails(p, st, msg);
    SelectOnly(Split, Finished);
  }

  lemma KeptOnly(groups: seq<seq<Key>>, recs: seq<seq<Key>>, i: nat)
    requires i < |groups| == |recs|
    ensures Kept(groups, recs, [i]) == [groups[i] + recs[i]] && Pick(groups, [i]) == [groups[i]]
  {
  }

  lemma NoneSplit(p: Params, groups: seq<seq<Key>>, home: seq<nat>, round: nat)
    ensures SplitAll(p, Pick(groups, []), round) == [] && RepeatEach(p, Pick(home, [])) == []
  {
    assert Pick(groups, []) == [] && Pick(home, []) == [];
  }

  lemma AliceCarries(p: Params, s: Side, fates: seq<Fate>, recs: seq<seq<Key>>)
    requires |fates| == |recs| == |s.groups| == |s.home| == 3 && MiddleOnly(fates)
    ensures AliceNext(p, s, fates, recs) == Side([s.groups[1] + recs[1]], [s.home[1]], s.round + 1)
  {
    NoneSplit(p, s.groups, s.home, s.round);
    KeptOnly(s.groups, recs, 1);
    assert Pick(s.home, [1]) == [s.home[1]];
  }

  lemma BobCarries(p: Params, s: Side)
    requires |s.groups| == |s.home| == 3
    ensures BobNext(p, s, [], [1]) == Side([s.groups[1]], [s.home[1]], s.round + 1)
  {
    NoneSplit(p, s.groups, s.home, s.round);
    KeptOnly(s.groups, s.groups, 1);
    assert Pick(s.home, [1]) == [s.home[1]];
  }

  lemma FlattenThree(lists: seq<seq<Key>>)
    requires |lists| == 3
    ensures Flatten(lists) == lists[0] + lists[1] + lists[2]
  {
    FlattenSnoc([], lists[0]);
    assert [] + [lists[0]] == [lists[0]] && [] + lists[0] == lists[0];
    FlattenSnoc([lists[0]], lists[1]);
    assert [lists[0]] + [lists[1]] + [lists[2]] == lists;
    FlattenSnoc([lists[0]] + [lists[1]], lists[2]);
  }

  /** Of three groups only the middle one has a wrong checksum. */
  lemma MiddleCarried(p: Params, st: Pair, msg: DecodingMessage, fates: seq<Fate>, recs: seq<seq<Key>>)
    requires Inv(p, st) && Answers(st, msg) && MiddleOnly(fates)
    requires fates == Fates(p, st.alice, ReplyTo(p, st, msg)) && recs == Recs(p, st.alice, ReplyTo(p, st, msg))
    ensures Next(p, st, msg) == Pair(Side([st.alice.groups[1] + recs[1]], [st.alice.home[1]], st.alice.round + 1),
                                     Side([st.bob.groups[1]], [st.bob.home[1]], st.bob.round + 1),
                                     st.recovered + [recs[0] + recs[1] + recs[2]])
  {
    AliceCarries(p, st.alice, fates, recs);
    BobCarries(p, st.bob);
    SelectSplit(fates, msg.counts);
    FlattenThree(recs);
  }

  lemma OthersDropped(p: Params, st: Pair, msg: DecodingMessage)
    requires Inv(p, st) && Answers(st, msg) && MiddleOnly(Fates(p, st.alice, ReplyTo(p, st, msg)))
    ensures Dropped(p, st, msg) == [Leftover(p, st, msg, 0), Leftover(p, st, msg, 2)]
  {
  }

  /** Every group is decoded right, or has more differing bins than the capacity. */
  ghost predicate DecoderRight(p: Params, st: Pair, msg: DecodingMessage)
    requires Inv(p, st) && Answers(st, msg)
  {
    forall g :: 0 <= g < |msg.counts| ==> ResultRight(p, st, msg, g)
  }

  ghost predicate ResultRight(p: Params, st: Pair, msg: DecodingMessage, g: nat)
    requires Inv(p, st) && Answers(st, msg) && g < |msg.counts|
  {
    if msg.counts[g] < 0 then |Merged(p, st, g)| > p.t else DecodedRight(p, st, msg, g)
  }

  // ---------- the first round: nothing can be decoded ----------

  const FAILED: DecodingMessage := DecodingMessage([-1], [])
  const LEFT_BINS: seq<nat> := [1, 3, 4, 5, 6, 7, 8]
  const PARTLY: DecodingMessage := DecodingMessage([7, 1, 0], LEFT_BINS + [1])
  const WHOLLY: DecodingMessage := DecodingMessage([6], [8, 9, 10, 11, 12, 1])

  /** The state after the first round. */
  ghost function Second(): Pair {
    Pair(Side([LEFT, RIGHT, []], [0, 0, 0], 1), Side([[], [], []], [0, 0, 0], 1), [[]])
  }

  lemma StartIs()
    ensures Start(TABLE, KEYS, []) == Pair(Side([KEYS], [0], 0), Side([[]], [0], 0), [])
  {
    FilterAll(KEYS, GroupIs(TABLE, 0));
    forall e
      ensures GroupId(TABLE, e) == 0
    {
      GroupAt(e);
    }
  }

  lemma SplitsApart(i: nat)
    requires i < 3
    ensures Filter(KEYS, SplitIs(TABLE, 0, i)) == [LEFT, RIGHT, []][i]
  {
    Places();
    forall e | e in LEFT
      ensures SplitId(TABLE, e, 0) == 0
    {
      SplitAt(e);
    }
    forall e | e in RIGHT
      ensures SplitId(TABLE, e, 0) == 1
    {
      SplitAt(e);
    }
    FilterConcat(LEFT, RIGHT, SplitIs(TABLE, 0, i));
    FilterAll(LEFT, SplitIs(TABLE, 0, i));
    FilterAll(RIGHT, SplitIs(TABLE, 0, i));
  }

  lemma SplitKeys()
    ensures ThreeWay(TABLE, KEYS, 0) == [LEFT, RIGHT, []]
    ensures ThreeWay(TABLE, [], 0) == [[], [], []]
  {
    SplitsApart(0);
    SplitsApart(1);
    SplitsApart(2);
  }

  lemma KeysDistinct()
    ensures Distinct(KEYS) && Distinct(RIGHT + [X]) && Distinct(LEFT)
  {
    AllPlaces();
    Places();
    assert forall i :: 0 <= i < 5 ==> (RIGHT + [X])[i] == KEYS[7 + i];
  }

  lemma BinsOfKeys(bins: seq<nat>)
    requires bins == seq(12, i => i + 1)
    ensures forall i :: 0 <= i < 12 ==> BinId(TABLE, KEYS[i], 0) == bins[i]
  {
    AllPlaces();
    forall i | 0 <= i < 12
      ensures BinId(TABLE, KEYS[i], 0) == i + 1
    {
      BinAt(KEYS[i], 0);
    }
  }

  /** Twelve bins differ, one more than can be decoded. */
  lemma TooManyBins(p: Params, st: Pair, bins: seq<nat>)
    requires LockStep(st) && st.alice.groups == [KEYS] && st.bob.groups == [[]] && Distinct(bins) && |bins| == 12
    requires forall i :: 0 <= i < 12 ==> BinId(p, KEYS[i], st.alice.round) == bins[i]
    ensures |Merged(p, st, 0)| == 12
  {
    KeysDistinct();
    ResidualOf(st, 0);
    IdealBins(p, st, 0, KEYS, bins);
    SizeOfDistinct(bins);
  }

  lemma FirstFails(st: Pair)
    requires st == Start(TABLE, KEYS, [])
    ensures Inv(TABLE, st) && Answers(st, FAILED) && DecoderRight(TABLE, st, FAILED)
  {
    StartEverything(TABLE, KEYS, []);
    StartIs();
    BinsOfKeys(seq(12, i => i + 1));
    TooManyBins(TABLE, st, seq(12, i => i + 1));
  }

  lemma FirstRound(st: Pair)
    requires st == Start(TABLE, KEYS, []) && Inv(TABLE, st) && Answers(st, FAILED)
    ensures Next(TABLE, st, FAILED) == Second() && Dropped(TABLE, st, FAILED) == []
  {
    StartIs();
    OneGroupSplits(TABLE, st, FAILED);
    NoneDropped(TABLE, st, FAILED);
    SplitKeys();
  }

  // ---------- the second round: a key twice ----------

  lemma PartlyBins()
    ensures WellSized(PARTLY)
    ensures Bins(PARTLY, 0) == LEFT_BINS && Bins(PARTLY, 1) == [1] && Bins(PARTLY, 2) == []
  {
    var c := PARTLY.counts;
    assert Offset(c, 0) == 0 && Offset(c, 1) == 7 && Offset(c, 2) == 8 && Offset(c, 3) == 8;
  }

  /** The hash throws the keys as the second round needs it. */
  ghost predicate Thrown(p: Params, round: nat) {
    && (forall i :: 0 <= i < 7 ==> BinId(p, LEFT[i], round) == LEFT_BINS[i])
    && Mixed(p, TRIPLE, COUPLE, X, round, 1, 2)
  }

  ghost predicate AtSecond(p: Params, st: Pair) {
    && Inv(p, st) && Answers(st, PARTLY) && Thrown(p, st.alice.round)
    && st.alice.groups == [LEFT, RIGHT, []] && st.bob.groups == [[], [], []] && st.alice.home == [0, 0, 0]
  }

  lemma GroupFinishes(p: Params, st: Pair, msg: DecodingMessage, g: nat, keys: seq<Key>, bins: seq<nat>)
    requires Inv(p, st) && Answers(st, msg) && g < |st.alice.groups| && 0 <= msg.counts[g] && Bins(msg, g) == bins
    requires st.alice.groups[g] == keys && st.bob.groups[g] == [] && Distinct(keys)
    requires |bins| == |keys| && Distinct(bins)
    requires forall i :: 0 <= i < |keys| ==> BinId(p, keys[i], st.alice.round) == bins[i]
    ensures DecodedRight(p, st, msg, g) && Leftover(p, st, msg, g) == {}
    ensures var y := ReplyTo(p, st, msg);
            && Fates(p, st.alice, y)[g] == Finished
            && Distinct(Recs(p, st.alice, y)[g]) && ToSet(Recs(p, st.alice, y)[g]) == ToSet(keys)
  {
    ResidualOf(st, g);
    IdealBins(p, st, g, keys, bins);
    IdealGroupFinishes(p, st, msg, g);
  }

  lemma LeftDistinct()
    ensures Distinct(LEFT) && Distinct(LEFT_BINS)
  {
    Places();
  }

  lemma LeftFinishes(p: Params, st: Pair)
    requires AtSecond(p, st)
    ensures DecodedRight(p, st, PARTLY, 0) && Leftover(p, st, PARTLY, 0) == {}
    ensures var y := ReplyTo(p, st, PARTLY);
            && Fates(p, st.alice, y)[0] == Finished
            && Distinct(Recs(p, st.alice, y)[0]) && ToSet(Recs(p, st.alice, y)[0]) == ToSet(LEFT)
  {
    PartlyBins();
    LeftDistinct();
    GroupFinishes(p, st, PARTLY, 0, LEFT, LEFT_BINS);
  }

  /** The triple in its bin passes for the key that its XOR is, but the couple spoils the checksum. */
  lemma FakeRecovered(p: Params, st: Pair)
    requires AtSecond(p, st)
    ensures DecodedRight(p, st, PARTLY, 1) && Recs(p, st.alice, ReplyTo(p, st, PARTLY))[1] == [X]
    ensures Fates(p, st.alice, ReplyTo(p, st, PARTLY))[1] == Carried
  {
    PartlyBins();
    MixedMerged(p, st, 1, TRIPLE, COUPLE, X, 1, 2);
    assert ToSet([1]) == {1};
    assert X in st.alice.groups[0] && GroupId(p, X) == st.alice.home[0] == st.alice.home[1];
    MixedRecovers(p, st, PARTLY, 1, TRIPLE, COUPLE, X, 1, 2);
    XorOfCouple();
  }

  lemma EmptyFinishes(p: Params, st: Pair)
    requires AtSecond(p, st)
    ensures DecodedRight(p, st, PARTLY, 2) && Leftover(p, st, PARTLY, 2) == {}
    ensures var y := ReplyTo(p, st, PARTLY);
            Fates(p, st.alice, y)[2] == Finished && Recs(p, st.alice, y)[2] == []
  {
    NothingReported(p, st, PARTLY, 2);
    NothingMerged(p, st, PARTLY, 2);
  }

  lemma SecondDecoded(p: Params, st: Pair)
    requires AtSecond(p, st)
    ensures DecoderRight(p, st, PARTLY)
  {
    forall g | 0 <= g < |PARTLY.counts|
      ensures ResultRight(p, st, PARTLY, g)
    {
      if g == 0 {
        LeftFinishes(p, st);
      } else if g == 1 {
        FakeRecovered(p, st);
      } else {
        EmptyFinishes(p, st);
      }
    }
  }

  /** One subgroup is finished, the other is carried over, and X is in the list twice. */
  lemma SecondRound(p: Params, st: Pair) returns (list: seq<Key>)
    requires AtSecond(p, st)
    ensures Distinct(list) && ToSet(list) == ToSet(LEFT)
    ensures var r := st.alice.round + 1;
            Next(p, st, PARTLY) == Pair(Side([RIGHT + [X]], [0], r), Side([[]], [0], r), st.recovered + [list + [X]])
    ensures Dropped(p, st, PARTLY) == [{}, {}]
  {
    LeftFinishes(p, st);
    FakeRecovered(p, st);
    EmptyFinishes(p, st);
    var y := ReplyTo(p, st, PARTLY);
    var fates, recs := Fates(p, st.alice, y), Recs(p, st.alice, y);
    ThreeFates(fates);
    MiddleCarried(p, st, PARTLY, fates, recs);
    OthersDropped(p, st, PARTLY);
    list := recs[0];
    assert list + [X] + [] == list + [X];
  }

  // ---------- the third round: everything ----------

  lemma WhollyBins()
    ensures WellSized(WHOLLY) && Bins(WHOLLY, 0) == WHOLLY.diffs
  {
    assert Offset(WHOLLY.counts, 0) == 0 && Offset(WHOLLY.counts, 1) == 6;
  }

  /** The hash keeps apart what is left for the third round. */
  ghost predicate Spread(p: Params, round: nat) {
    forall i :: 0 <= i < 6 ==> BinId(p, (RIGHT + [X])[i], round) == WHOLLY.diffs[i]
  }

  ghost predicate AtThird(p: Params, st: Pair) {
    && Inv(p, st) && Answers(st, WHOLLY) && Spread(p, st.alice.round)
    && st.alice.groups == [RIGHT + [X]] && st.bob.groups == [[]]
  }

  lemma RestFinishes(p: Params, st: Pair)
    requires AtThird(p, st)
    ensures DecodedRight(p, st, WHOLLY, 0) && Leftover(p, st, WHOLLY, 0) == {}
    ensures var y := ReplyTo(p, st, WHOLLY);
            && Fates(p, st.alice, y)[0] == Finished
            && Distinct(Recs(p, st.alice, y)[0]) && ToSet(Recs(p, st.alice, y)[0]) == ToSet(RIGHT + [X])
  {
    WhollyBins();
    KeysDistinct();
    GroupFinishes(p, st, WHOLLY, 0, RIGHT + [X], WHOLLY.diffs);
  }

  lemma OnlyDropped(p: Params, st: Pair, msg: DecodingMessage)
    requires Inv(p, st) && Answers(st, msg) && Fates(p, st.alice, ReplyTo(p, st, msg)) == [Finished]
    ensures Dropped(p, st, msg) == [Leftover(p, st, msg, 0)]
  {
    SelectOnly(Finished, Finished);
  }

  lemma ThirdRound(p: Params, st: Pair) returns (list: seq<Key>)
    requires AtThird(p, st)
    ensures DecoderRight(p, st, WHOLLY) && Distinct(list)
    ensures Next(p, st, WHOLLY).alice.groups == [] && Next(p, st, WHOLLY).recovered == st.recovered + [list]
    ensures Dropped(p, st, WHOLLY) == [{}]
  {
    RestFinishes(p, st);
    AllFinished(p, st, WHOLLY);
    OnlyDropped(p, st, WHOLLY);
    list := Recs(p, st.alice, ReplyTo(p, st, WHOLLY))[0];
    assert Recs(p, st.alice, ReplyTo(p, st, WHOLLY)) == [list];
    FlattenOne(list);
  }

  // ---------- the run ----------

  lemma SecondBins()
    ensures forall i :: 0 <= i < 7 ==> BinId(TABLE, LEFT[i], 1) == LEFT_BINS[i]
    ensures forall e :: e in TRIPLE ==> BinId(TABLE, e, 1) == 1
    ensures forall e :: e in COUPLE ==> BinId(TABLE, e, 1) == 2
  {
    Places();
    forall e
      ensures BinId(TABLE, e, 1) == SecondHash(Place(e)) + 1
    {
      BinAt(e, 1);
    }
  }

  lemma SecondState()
    ensures Thrown(TABLE, 1) && Answers(Second(), PARTLY)
  {
    SecondBins();
    PartlyBins();
    KeysDistinct();
    XorOfTriple();
    assert X == LEFT[0] && X == (RIGHT + [X])[5];
    assert forall i :: 0 <= i < 5 ==> RIGHT[i] == (RIGHT + [X])[i];
  }

  lemma ThirdState()
    ensures Spread(TABLE, 2)
  {
    Places();
    forall i | 0 <= i < 6
      ensures BinId(TABLE, (RIGHT + [X])[i], 2) == WHOLLY.diffs[i]
    {
      BinAt((RIGHT + [X])[i], 2);
    }
  }

  /** Folding the three lists drops the key that the second one repeats. */
  lemma TwiceIsNever(list: seq<Key>, last: seq<Key>, rounds: seq<seq<Key>>)
    requires Distinct(list) && X in list && Distinct(last)
    requires rounds == [[]] + [list + [X]] + [last]
    ensures AllRepeated(rounds) == {X}
  {
    var none: seq<Key> := [];
    OddDistinct(list);
    OddSnoc(list, X);
    OddDistinct(last);
    assert Odd(list + [X]) == ToSet(list) - {X} && ToSet(list + [X]) == ToSet(list);
    RepeatedSnoc([], none);
    RepeatedSnoc([none], list + [X]);
    RepeatedSnoc([none] + [list + [X]], last);
    assert [] + [none] == [none];
  }

  lemma RepeatedSnoc(rounds: seq<seq<Key>>, list: seq<Key>)
    ensures AllRepeated(rounds + [list]) == SymDiff(AllRepeated(rounds), Repeated(list))
  {
    assert (rounds + [list])[..|rounds|] == rounds;
  }

  ghost predicate AllDecodedRight(p: Params, st: Pair, msgs: seq<DecodingMessage>)
    requires IsRun(p, st, msgs)
    decreases |msgs|
  {
    msgs == [] ||
    (var init, last := msgs[..|msgs| - 1], msgs[|msgs| - 1];
     AllDecodedRight(p, st, init) && DecoderRight(p, Run(p, st, init), last))
  }

  /** A run with a decoder that keeps its promise, from a first state to `end`. */
  ghost predicate Reaches(p: Params, st: Pair, msgs: seq<DecodingMessage>, end: Pair, dropped: seq<set<Key>>) {
    && IsRun(p, st, msgs) && AllDecodedRight(p, st, msgs)
    && Run(p, st, msgs) == end && AllDropped(p, st, msgs) == dropped && Inv(p, end)
  }

  lemma OneMoreRound(p: Params, st: Pair, msgs: seq<DecodingMessage>, end: Pair, dropped: seq<set<Key>>,
                     msg: DecodingMessage)
    requires Inv(p, st) && Reaches(p, st, msgs, end, dropped) && Answers(end, msg) && DecoderRight(p, end, msg)
    ensures Reaches(p, st, msgs + [msg], Next(p, end, msg), dropped + Dropped(p, end, msg))
  {
    RunExtends(p, st, msgs, msg);
    NextAtHome(p, end, msg);
    assert (msgs + [msg])[..|msgs|] == msgs;
  }

  lemma Conserved(p: Params, st: Pair, msgs: seq<DecodingMessage>, end: Pair, dropped: seq<set<Key>>)
    requires Inv(p, st) && Reaches(p, st, msgs, end, dropped) && end.alice.groups == [] && BigSymDiff(dropped) == {}
    ensures Odd(Flatten(end.recovered)) == Everything(st)
  {
    RunConserves(p, st, msgs);
    assert end.alice.groups + end.bob.groups + end.recovered == end.recovered;
  }

  lemma ThroughFirst(st: Pair)
    requires st == Start(TABLE, KEYS, [])
    ensures Inv(TABLE, st) && Reaches(TABLE, st, [FAILED], Second(), [])
  {
    FirstFails(st);
    FirstRound(st);
    OneMoreRound(TABLE, st, [], st, [], FAILED);
    assert [] + [FAILED] == [FAILED];
  }

  lemma ThroughSecond(p: Params, st: Pair, msgs: seq<DecodingMessage>, second: Pair)
    returns (list: seq<Key>, third: Pair)
    requires Inv(p, st) && Reaches(p, st, msgs, second, []) && AtSecond(p, second)
    ensures Distinct(list) && ToSet(list) == ToSet(LEFT)
    ensures third == Pair(Side([RIGHT + [X]], [0], second.alice.round + 1), Side([[]], [0], second.alice.round + 1),
                          second.recovered + [list + [X]])
    ensures Reaches(p, st, msgs + [PARTLY], third, [{}, {}])
  {
    SecondDecoded(p, second);
    list := SecondRound(p, second);
    third := Next(p, second, PARTLY);
    OneMoreRound(p, st, msgs, second, [], PARTLY);
  }

  lemma ThroughThird(p: Params, st: Pair, msgs: seq<DecodingMessage>, third: Pair) returns (last: seq<Key>, end: Pair)
    requires Inv(p, st) && Reaches(p, st, msgs, third, [{}, {}]) && AtThird(p, third)
    ensures Distinct(last) && end.alice.groups == [] && end.recovered == third.recovered + [last]
    ensures Reaches(p, st, msgs + [WHOLLY], end, [{}, {}, {}])
  {
    last := ThirdRound(p, third);
    end := Next(p, third, WHOLLY);
    OneMoreRound(p, st, msgs, third, [{}, {}], WHOLLY);
  }

  lemma NothingLost()
    ensures BigSymDiff([{}, {}, {}]) == {}
  {
    BigSymDiffEmpty([{}, {}, {}]);
  }

  lemma FoldedWrong(rounds: seq<seq<Key>>, all: set<Key>)
    requires Odd(Flatten(rounds)) == all && AllRepeated(rounds) == {X} && X in all
    ensures X !in Fold(rounds)
  {
    FoldIsParity(rounds);
    assert X !in ToSet(Fold(rounds));
  }

  lemma KeysDiffer(st: Pair)
    requires st == Start(TABLE, KEYS, [])
    ensures Everything(st) == ToSet(KEYS) == SymDiff(ToSet(KEYS), ToSet([]))
  {
    StartEverything(TABLE, KEYS, []);
    KeysDistinct();
    OddDistinct(KEYS);
    assert Odd([]) == {};
  }

  lemma ThroughAll(p: Params, st: Pair, first: seq<DecodingMessage>, second: Pair)
    returns (msgs: seq<DecodingMessage>, end: Pair)
    requires Inv(p, st) && Reaches(p, st, first, second, []) && AtSecond(p, second)
    requires second.recovered == [[]] && Spread(p, second.alice.round + 1)
    ensures end.alice.groups == [] && AllRepeated(end.recovered) == {X}
    ensures Reaches(p, st, msgs, end, [{}, {}, {}]) && Odd(Flatten(end.recovered)) == Everything(st)
  {
    var list, third := ThroughSecond(p, st, first, second);
    WhollyBins();
    var last;
    last, end := ThroughThird(p, st, first + [PARTLY], third);
    NothingLost();
    Conserved(p, st, first + [PARTLY] + [WHOLLY], end, [{}, {}, {}]);
    msgs := first + [PARTLY] + [WHOLLY];
    assert X == LEFT[0] && X in ToSet(list);
    TwiceIsNever(list, last, end.recovered);
  }

  /** With a decoder that keeps its promise, a run can complete with nothing left over and still be folded into a
      wrong difference: X differs and occurs an odd number of times in the lists, but the fold does not have it. */
  lemma RepeatedFakeLosesKey(st: Pair) returns (msgs: seq<DecodingMessage>, end: Pair)
    requires st == Start(TABLE, KEYS, [])
    ensures Distinct(KEYS) && X in SymDiff(ToSet(KEYS), ToSet([]))
    ensures Inv(TABLE, st) && Reaches(TABLE, st, msgs, end, [{}, {}, {}])
    ensures end.alice.groups == [] && X in Odd(Flatten(end.recovered)) && X !in Fold(end.recovered)
  {
    KeysDistinct();
    KeysDiffer(st);
    ThroughFirst(st);
    SecondState();
    ThirdState();
    msgs, end := ThroughAll(TABLE, st, [FAILED], Second());
    assert X == KEYS[0];
    FoldedWrong(end.recovered, ToSet(KEYS));
  }
}
