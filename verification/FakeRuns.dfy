/**
 What a fake does to a client that reconciles with an empty server: it goes on as if nothing had happened, and the
 server gets nothing. If the checksum does not notice the fake, the client even reports success.
 */
module FakeRuns {
  import opened Arithmetic
  import opened Parity
  import opened PbsSpec
  import opened PbsRounds
  import opened PbsTheorems
  import opened PbsSketch
  import opened PbsRun
  import opened PbsWire
  import opened Stores
  import opened Reconciliation
  import opened Fakes

  /** In one group and the first round, `odd` pass for x, which is none of the client's keys. */
  ghost predicate Deceives(p: Params, odd: seq<Key>, even: seq<Key>, x: Key, c: nat) {
    && Mixed(p, odd, even, x, 0, BinId(p, x, 0), c)
    && forall e :: e in odd + even ==> GroupId(p, e) == GroupId(p, x)
  }

  // ---------- the round ----------

  lemma InOneGroup(p: Params, keys: seq<Key>, home: nat, g: nat)
    requires g < p.numGroups && forall e :: e in keys ==> GroupId(p, e) == home
    ensures Start(p, keys, []).alice.groups[g] == if g == home then keys else []
    ensures Start(p, keys, []).bob.groups[g] == [] && Start(p, keys, []).alice.home[g] == g
  {
    FilterAll(keys, GroupIs(p, g));
  }

  lemma NothingInBins(p: Params, st: Pair, g: nat)
    requires LockStep(st) && g < |st.alice.groups| && st.alice.groups[g] == st.bob.groups[g] == []
    ensures Merged(p, st, g) == {}
  {
  }

  lemma FakeDecoded(p: Params, k: Minisketch, odd: seq<Key>, even: seq<Key>, x: Key, c: nat, st: Pair,
                    msg: DecodingMessage, g: nat)
    requires Works(p, k) && Deceives(p, odd, even, x, c) && g < p.numGroups
    requires st == Start(p, odd + even, []) && Inv(p, st) && msg == Pack(Results(p, k, st))
    ensures Answers(st, msg) && DecodedRight(p, st, msg, g)
    ensures g != GroupId(p, x) ==> msg.counts[g] == 0
  {
    InOneGroup(p, odd + even, GroupId(p, x), g);
    if g == GroupId(p, x) {
      MixedMerged(p, st, g, odd, even, x, BinId(p, x, 0), c);
    } else {
      NothingInBins(p, st, g);
    }
    ResultsDecoded(p, k, st);
    WithinCapacity(p, st, Results(p, k, st), g);
    SizeOfDistinct(Bins(msg, g));
  }

  ghost predicate OnlyX(recs: seq<seq<Key>>, home: nat, x: Key) {
    home < |recs| && forall g :: 0 <= g < |recs| ==> recs[g] == if g == home then [x] else []
  }

  ghost predicate OnlyHome(fates: seq<Fate>, home: nat, done: bool) {
    home < |fates| && forall g :: 0 <= g < |fates| ==> fates[g] == if g == home && !done then Carried else Finished
  }

  lemma FakeGroup(p: Params, k: Minisketch, odd: seq<Key>, even: seq<Key>, x: Key, c: nat, st: Pair,
                  msg: DecodingMessage, g: nat)
    requires Works(p, k) && Deceives(p, odd, even, x, c) && g < p.numGroups
    requires st == Start(p, odd + even, []) && Inv(p, st) && msg == Pack(Results(p, k, st)) && Answers(st, msg)
    ensures var y := ReplyTo(p, st, msg);
            && Recs(p, st.alice, y)[g] == (if g == GroupId(p, x) then [x] else [])
            && Fates(p, st.alice, y)[g] == if g == GroupId(p, x) && XorSeq(even) != ZERO then Carried else Finished
  {
    FakeDecoded(p, k, odd, even, x, c, st, msg, g);
    InOneGroup(p, odd + even, GroupId(p, x), g);
    if g == GroupId(p, x) {
      MixedRecovers(p, st, msg, g, odd, even, x, BinId(p, x, 0), c);
    } else {
      NothingReported(p, st, msg, g);
    }
  }

  lemma {:induction false} FlattenAlone(lists: seq<seq<Key>>, g: nat, x: Key)
    requires forall i :: 0 <= i < |lists| ==> lists[i] == if i == g then [x] else []
    ensures Flatten(lists) == if g < |lists| then [x] else []
  {
    if lists == [] {
    } else {
      FlattenAlone(lists[..|lists| - 1], g, x);
    }
  }

  lemma {:induction false} SelectHas(fates: seq<Fate>, f: Fate, i: nat)
    requires i < |fates| && fates[i] == f
    ensures i in Select(fates, f)
  {
    if i == |fates| - 1 {
    } else {
      SelectHas(fates[..|fates| - 1], f, i);
    }
  }

  lemma SomeLeft(p: Params, st: Pair, msg: DecodingMessage, g: nat)
    requires Inv(p, st) && Answers(st, msg) && g < |st.alice.groups|
    requires Fates(p, st.alice, ReplyTo(p, st, msg))[g] == Carried
    ensures Next(p, st, msg).alice.groups != []
  {
    SelectHas(Fates(p, st.alice, ReplyTo(p, st, msg)), Carried, g);
  }

  lemma FakeEverywhere(p: Params, k: Minisketch, odd: seq<Key>, even: seq<Key>, x: Key, c: nat, st: Pair,
                       msg: DecodingMessage)
    requires Works(p, k) && Deceives(p, odd, even, x, c)
    requires st == Start(p, odd + even, []) && Inv(p, st) && msg == Pack(Results(p, k, st)) && Answers(st, msg)
    ensures OnlyX(Recs(p, st.alice, ReplyTo(p, st, msg)), GroupId(p, x), x)
    ensures OnlyHome(Fates(p, st.alice, ReplyTo(p, st, msg)), GroupId(p, x), XorSeq(even) == ZERO)
  {
    var y := ReplyTo(p, st, msg);
    forall g | 0 <= g < p.numGroups
      ensures Recs(p, st.alice, y)[g] == if g == GroupId(p, x) then [x] else []
      ensures Fates(p, st.alice, y)[g] == if g == GroupId(p, x) && XorSeq(even) != ZERO then Carried else Finished
    {
      FakeGroup(p, k, odd, even, x, c, st, msg, g);
    }
  }

  lemma FakeNext(p: Params, st: Pair, msg: DecodingMessage, home: nat, x: Key, done: bool)
    requires Inv(p, st) && Answers(st, msg) && OnlyX(Recs(p, st.alice, ReplyTo(p, st, msg)), home, x)
    requires OnlyHome(Fates(p, st.alice, ReplyTo(p, st, msg)), home, done)
    ensures Next(p, st, msg).recovered == st.recovered + [[x]]
    ensures Next(p, st, msg).alice.groups == [] <==> done
  {
    FlattenAlone(Recs(p, st.alice, ReplyTo(p, st, msg)), home, x);
    if done {
      AllFinished(p, st, msg);
    } else {
      SomeLeft(p, st, msg, home);
    }
  }

  /** The first list is the fake, and the run is over exactly if the other keys XOR to zero. */
  lemma FakeRound(p: Params, k: Minisketch, odd: seq<Key>, even: seq<Key>, x: Key, c: nat, hist: nat -> Pair)
    requires Works(p, k) && Deceives(p, odd, even, x, c) && History(p, k, odd + even, [], hist)
    ensures hist(0).recovered == [] && hist(1).recovered == [[x]]
    ensures hist(1).alice.groups == [] <==> XorSeq(even) == ZERO
  {
    assert Follows(p, k, hist, 0);
    var st := hist(0);
    var msg := Pack(Results(p, k, st));
    FakeEverywhere(p, k, odd, even, x, c, st, msg);
    FakeNext(p, st, msg, GroupId(p, x), x, XorSeq(even) == ZERO);
  }

  // ---------- the client ----------

  lemma FakeIsBad(p: Params, odd: seq<Key>, even: seq<Key>, x: Key, c: nat, hist: nat -> Pair)
    requires Deceives(p, odd, even, x, c) && hist(0).recovered == [] && hist(1).recovered == [[x]]
    ensures Exchanged(hist, 0) == {} && ToSet(List(hist, 0)) == {x} && x !in ToSet(odd + even)
    ensures !GoodList(odd + even, [], hist, 0)
  {
    assert Flatten(hist(0).recovered) == [];
    assert List(hist, 0) == [x];
    assert x in ToSet(List(hist, 0));
  }

  /** A first list of nothing but a key that no store has. */
  lemma BadFirstList<V>(p: Params, k: Minisketch, keys: seq<Key>, x: Key, hist: nat -> Pair, all: Store<V>,
                        completed: bool, rounds: nat, client: Store<V>, server: Store<V>)
    requires Exchanged(hist, 0) == {} && ToSet(List(hist, 0)) == {x} && x !in ToSet(keys)
    requires !GoodList(keys, [], hist, 0) && all.Keys == ToSet(keys)
    requires Outcome(p, k, keys, [], hist, all, completed, rounds, client, server)
    ensures rounds == 1 && completed == (hist(1).alice.groups == []) && client == all && server == map[]
  {
    BeyondFirst(p, k, keys, [], hist, rounds);
    NothingMoved(all, x, client, server);
  }

  /** Whatever comes out, no key has moved; and success is reported exactly if the other keys XOR to zero. */
  lemma FakeOutcome<V>(p: Params, k: Minisketch, odd: seq<Key>, even: seq<Key>, x: Key, c: nat, hist: nat -> Pair,
                       all: Store<V>, completed: bool, rounds: nat, client: Store<V>, server: Store<V>)
    requires Works(p, k) && Deceives(p, odd, even, x, c) && History(p, k, odd + even, [], hist)
    requires all.Keys == ToSet(odd + even)
    requires Outcome(p, k, odd + even, [], hist, all, completed, rounds, client, server)
    ensures rounds == 1 && completed == (XorSeq(even) == ZERO) && client == all && server == map[]
  {
    FakeRound(p, k, odd, even, x, c, hist);
    FakeIsBad(p, odd, even, x, c, hist);
    BadFirstList(p, k, odd + even, x, hist, all, completed, rounds, client, server);
  }

  lemma NothingMoved<V>(all: Store<V>, x: Key, client: Store<V>, server: Store<V>)
    requires Parts(all, client, server) && x !in all && all.Keys <= client.Keys && server.Keys <= {x}
    ensures client == all && server == map[]
  {
    PartWhole(client, all);
    assert server.Keys == {};
  }

  /** The client against an empty server. */
  method ReconcileFake<V>(p: Params, k: Minisketch, odd: seq<Key>, even: seq<Key>, ghost x: Key, ghost c: nat,
                          client0: Store<V>)
    returns (completed: bool, client: Store<V>, server: Store<V>)
    requires Works(p, k) && Deceives(p, odd, even, x, c) && client0.Keys == ToSet(odd + even)
    ensures completed == (XorSeq(even) == ZERO) && client == client0 && server == map[]
  {
    ghost var hist := HistoryExists(p, k, odd + even, []);
    var rounds;
    completed, rounds, client, server := Reconcile(p, k, odd + even, [], hist, client0, map[]);
    assert client0 + map[] == client0;
    FakeOutcome(p, k, odd, even, x, c, hist, client0, completed, rounds, client, server);
  }

  // ---------- examples ----------

  /** Three keys, and a hash that puts everything into one bin: the client reports success. */
  lemma FakeSucceeds() returns (k: Minisketch)
    ensures Works(CONSTANT_HASH, k) && Deceives(CONSTANT_HASH, TRIPLE, [], X, 2) && XorSeq([]) == ZERO
  {
    AreaIsProduct(6, 11);
    k := MinisketchExists(CONSTANT_HASH);
    TripleDistinct();
    XorOfTriple();
    assert TRIPLE + [] == TRIPLE;
  }

  /** The couple is thrown into the second bin; there is a second group, so that hints arrive. */
  function PairHash(e: Key, seed: nat): nat {
    if seed != 0 && (3 in e.ones || 4 in e.ones) then 1 else 0
  }

  const PAIR_HASH: Params := RawParams(PairHash, 6, 63, 11, 3, 2, 0)

  lemma PairBins(e: Key)
    ensures GroupId(PAIR_HASH, e) == 0 && BinId(PAIR_HASH, e, 0) == if 3 in e.ones || 4 in e.ones then 2 else 1
  {
  }

  lemma PairMixed()
    ensures Mixed(PAIR_HASH, TRIPLE, COUPLE, X, 0, 1, 2)
  {
    TripleDistinct();
    XorOfTriple();
    forall e: Key
      ensures BinId(PAIR_HASH, e, 0) == if 3 in e.ones || 4 in e.ones then 2 else 1
    {
      PairBins(e);
    }
  }

  /** Five keys: the checksum is wrong, and the client stops at the fake. */
  lemma FakeStops() returns (k: Minisketch)
    ensures Works(PAIR_HASH, k) && Deceives(PAIR_HASH, TRIPLE, COUPLE, X, 2) && XorSeq(COUPLE) != ZERO
  {
    AreaIsProduct(6, 11);
    k := MinisketchExists(PAIR_HASH);
    PairMixed();
    PairBins(X);
    forall e: Key
      ensures GroupId(PAIR_HASH, e) == 0
    {
      PairBins(e);
    }
    XorOfCouple();
  }
}
