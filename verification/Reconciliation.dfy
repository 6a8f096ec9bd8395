/**
 A client and a server reconcile their key-value stores with the sketch protocol.
 */
module Reconciliation {
  import opened Wrappers
  import opened Parity
  import opened PbsSpec
  import opened PbsRounds
  import opened PbsTheorems
  import opened PbsSketch
  import opened PbsRun
  import opened PbsWire
  import opened Stores
  import DecodingCodec

  const PBS_MAX_ROUNDS: nat := 3

  // ---------- exchanging one recovered list ----------

  /** A list that two stores can exchange: each key is in exactly one of them, and none is named twice. */
  ghost predicate Genuine(client: set<Key>, server: set<Key>, res: seq<Key>) {
    Distinct(res) && ToSet(res) <= SymDiff(client, server)
  }

  ghost predicate Parts<V>(all: Store<V>, client: Store<V>, server: Store<V>) {
    Part(client, all) && Part(server, all)
  }

  /** The request of the next round carries the list recovered in the last one. It is answered without error
      exactly if the list is genuine; fakes and repetitions are errors. Either way both stores only gain keys of
      the list, with the values of the other store. */
  method SyncInRound<V>(client: Store<V>, server: Store<V>, res: seq<Key>, ghost all: Store<V>)
    returns (ok: bool, newClient: Store<V>, newServer: Store<V>)
    requires Parts(all, client, server)
    ensures Parts(all, newClient, newServer) && (ok <==> Genuine(client.Keys, server.Keys, res))
    ensures client.Keys <= newClient.Keys <= client.Keys + ToSet(res)
    ensures server.Keys <= newServer.Keys <= server.Keys + ToSet(res)
    ensures ok ==> newClient.Keys == client.Keys + ToSet(res) && newServer.Keys == server.Keys + ToSet(res)
  {
    var pushed, missing := Sort(client, res);
    FromPart(pushed, client, all);
    var reply;
    reply, newServer := Serve(server, pushed, missing);
    GrownPart(server, pushed, newServer, all);
    GrownKeys(server, pushed, newServer);
    SortedGenuine(client.Keys, server.Keys, res, Keys(pushed), ToSet(missing));
    if reply.Err? {
      return false, client, newServer;
    }
    FromPart(reply.value, newServer, all);
    ok, newClient := InsertNew(client, reply.value);
    GrownPart(client, reply.value, newClient, all);
    GrownKeys(client, reply.value, newClient);
  }

  lemma GrownKeys<V>(store: Store<V>, items: seq<Item<V>>, now: Store<V>)
    requires Grown(store, items, now)
    ensures store.Keys <= now.Keys <= store.Keys + Keys(items)
  {
    forall k | k in now.Keys
      ensures k in store.Keys + Keys(items)
    {
      if k !in store {
        var i :| 0 <= i < |items| && items[i] == Item(k, now[k]);
      }
    }
  }

  /** A list is genuine if what the client has of it is new to the server and the rest is there. */
  lemma SortedGenuine(client: set<Key>, server: set<Key>, res: seq<Key>, pushed: set<Key>, missing: set<Key>)
    requires pushed == ToSet(res) * client && missing == ToSet(res) - client
    ensures ToSet(res) <= SymDiff(client, server) <==> pushed !! server && missing <= server + pushed
    ensures missing <= server + pushed <==> missing <= server
  {
    if pushed !! server && missing <= server + pushed {
      forall x | x in ToSet(res)
        ensures x in SymDiff(client, server)
      {
        assert x in pushed || x in missing;
      }
    }
    if ToSet(res) <= SymDiff(client, server) {
      forall x | x in pushed
        ensures x !in server
      {
        assert x in ToSet(res);
      }
      forall x | x in missing
        ensures x in server
      {
        assert x in ToSet(res);
      }
    }
  }

  /** The exchange after completion, by push, pull or both; its result is not looked at. The server gains what
      the client has of the list. The client gains the rest if the server has all of it, and otherwise nothing. */
  method FinalSync<V>(client: Store<V>, server: Store<V>, res: seq<Key>, ghost all: Store<V>)
    returns (newClient: Store<V>, newServer: Store<V>)
    requires Parts(all, client, server)
    ensures Parts(all, newClient, newServer)
    ensures newServer.Keys == server.Keys + ToSet(res) * client.Keys
    ensures newClient.Keys == client.Keys + (if ToSet(res) - client.Keys <= server.Keys then ToSet(res) else {})
  {
    var pushed, missing := Sort(client, res);
    newClient, newServer := client, server;
    SortedGenuine(client.Keys, server.Keys, res, Keys(pushed), ToSet(missing));
    if pushed != [] || missing != [] {
      FromPart(pushed, client, all);
      var reply;
      reply, newServer := Synchronize(server, pushed, missing);
      GrownPart(server, pushed, newServer, all);
      if reply.Ok? {
        FromPart(reply.value, newServer, all);
        newClient := InsertAll(client, reply.value);
        GrownPart(client, reply.value, newClient, all);
      }
    } else {
      assert Keys(pushed) == {} && ToSet(missing) == {};
      assert ToSet(res) == {};
    }
  }

  // ---------- the states of a run ----------

  /** `hist(i)` and `hist(i + 1)` are the states before and after round i + 1. */
  ghost predicate Follows(p: Params, k: Minisketch, hist: nat -> Pair, i: nat) {
    && Inv(p, hist(i)) && Inv(p, hist(i + 1)) && |hist(i).recovered| == i && |hist(i + 1).recovered| == i + 1
    && hist(i + 1) == Next(p, hist(i), Pack(Results(p, k, hist(i))))
  }

  /** The states of the run from these two lists of keys. */
  ghost predicate History(p: Params, k: Minisketch, a: seq<Key>, b: seq<Key>, hist: nat -> Pair) {
    hist(0) == Start(p, a, b) && forall i: nat :: Follows(p, k, hist, i)
  }

  ghost function Rounds(p: Params, k: Minisketch, a: seq<Key>, b: seq<Key>, i: nat): (st: Pair)
    ensures Inv(p, st) && |st.recovered| == i
  {
    if i == 0 then
      StartEverything(p, a, b);
      Start(p, a, b)
    else
      var st := Rounds(p, k, a, b, i - 1);
      NextAtHome(p, st, Pack(Results(p, k, st)));
      Next(p, st, Pack(Results(p, k, st)))
  }

  /** There is such a run. */
  lemma HistoryExists(p: Params, k: Minisketch, a: seq<Key>, b: seq<Key>) returns (hist: nat -> Pair)
    ensures History(p, k, a, b, hist)
  {
    hist := (i: nat) => Rounds(p, k, a, b, i);
    forall i: nat
      ensures Follows(p, k, hist, i)
    {
      assert hist(i) == Rounds(p, k, a, b, i) && hist(i + 1) == Rounds(p, k, a, b, i + 1);
    }
  }

  ghost function Messages(p: Params, k: Minisketch, hist: nat -> Pair, i: nat): (msgs: seq<DecodingMessage>)
    requires forall j: nat :: Follows(p, k, hist, j)
    ensures |msgs| == i
  {
    if i == 0 then []
    else
      assert Follows(p, k, hist, i - 1);
      Messages(p, k, hist, i - 1) + [Pack(Results(p, k, hist(i - 1)))]
  }

  lemma {:induction false} HistoryIsRun(p: Params, k: Minisketch, a: seq<Key>, b: seq<Key>, hist: nat -> Pair, i: nat)
    requires History(p, k, a, b, hist)
    ensures IsRun(p, Start(p, a, b), Messages(p, k, hist, i))
    ensures Run(p, Start(p, a, b), Messages(p, k, hist, i)) == hist(i)
  {
    if i == 0 {
    } else {
      HistoryIsRun(p, k, a, b, hist, i - 1);
      assert Follows(p, k, hist, i - 1);
      var msgs := Messages(p, k, hist, i);
      assert msgs[..|msgs| - 1] == Messages(p, k, hist, i - 1);
    }
  }

  /** The keys of the first i lists. */
  ghost function Exchanged(hist: nat -> Pair, i: nat): set<Key> {
    ToSet(Flatten(hist(i).recovered))
  }

  /** The list recovered in round i + 1. */
  ghost function List(hist: nat -> Pair, i: nat): seq<Key> {
    if i < |hist(i + 1).recovered| then hist(i + 1).recovered[i] else []
  }

  /** It is genuine: keys of exactly one of the initial stores, none named twice or in an earlier list. */
  ghost predicate GoodList(a: seq<Key>, b: seq<Key>, hist: nat -> Pair, i: nat) {
    && Distinct(List(hist, i)) && ToSet(List(hist, i)) <= SymDiff(ToSet(a), ToSet(b))
    && ToSet(List(hist, i)) !! Exchanged(hist, i)
  }

  /** The hint that round i + 1 gives rise to arrives. */
  ghost predicate HintArrives(p: Params, k: Minisketch, hist: nat -> Pair, i: nat) {
    var st := hist(i);
    Inv(p, st) && !(|st.alice.groups| == 1 && Exceptions(p, st, Pack(Results(p, k, st))) != [])
  }

  /** After round i + 1 there is work left, and the next request is answered without error. */
  ghost predicate Continues(p: Params, k: Minisketch, a: seq<Key>, b: seq<Key>, hist: nat -> Pair, i: nat) {
    hist(i + 1).alice.groups != [] && GoodList(a, b, hist, i) && HintArrives(p, k, hist, i)
  }

  lemma NextAppends(p: Params, st: Pair, msg: DecodingMessage)
    requires Inv(p, st) && Answers(st, msg)
    ensures |Next(p, st, msg).recovered| == |st.recovered| + 1
    ensures Next(p, st, msg).recovered == st.recovered + [Next(p, st, msg).recovered[|st.recovered|]]
  {
  }

  lemma OneMoreList(p: Params, k: Minisketch, hist: nat -> Pair, i: nat)
    requires Follows(p, k, hist, i)
    ensures hist(i + 1).recovered == hist(i).recovered + [List(hist, i)]
    ensures Exchanged(hist, i + 1) == Exchanged(hist, i) + ToSet(List(hist, i))
  {
    NextAppends(p, hist(i), Pack(Results(p, k, hist(i))));
    FlattenSnoc(hist(i).recovered, List(hist, i));
  }

  lemma NextExchanged(p: Params, k: Minisketch, a: seq<Key>, b: seq<Key>, hist: nat -> Pair, i: nat)
    requires History(p, k, a, b, hist)
    ensures Exchanged(hist, i + 1) == Exchanged(hist, i) + ToSet(List(hist, i))
  {
    assert Follows(p, k, hist, i);
    OneMoreList(p, k, hist, i);
  }

  /** Good lists are free of repetitions all together. */
  lemma {:induction false} GoodLists(p: Params, k: Minisketch, a: seq<Key>, b: seq<Key>, hist: nat -> Pair, r: nat)
    requires History(p, k, a, b, hist) && forall i: nat :: i < r ==> GoodList(a, b, hist, i)
    ensures Distinct(Flatten(hist(r).recovered)) && Exchanged(hist, r) <= SymDiff(ToSet(a), ToSet(b))
  {
    if r == 0 {
      assert hist(0).recovered == [];
      assert Flatten(hist(0).recovered) == [];
    } else {
      GoodLists(p, k, a, b, hist, r - 1);
      assert Follows(p, k, hist, r - 1) && GoodList(a, b, hist, r - 1);
      OneMoreList(p, k, hist, r - 1);
      FlattenSnoc(hist(r - 1).recovered, List(hist, r - 1));
      DistinctJoin(Flatten(hist(r - 1).recovered), List(hist, r - 1));
    }
  }

  lemma DistinctJoin(s: seq<Key>, t: seq<Key>)
    requires Distinct(s) && Distinct(t) && ToSet(s) !! ToSet(t)
    ensures Distinct(s + t)
  {
    forall i, j | 0 <= i < |s| && 0 <= j < |t|
      ensures s[i] != t[j]
    {
      assert s[i] in ToSet(s) && t[j] in ToSet(t);
    }
  }

  // ---------- the stores of a run ----------

  /** The stores after the first i lists have been exchanged. */
  ghost predicate StoresAfter<V>(a: seq<Key>, b: seq<Key>, hist: nat -> Pair, i: nat, all: Store<V>, client: Store<V>,
                                 server: Store<V>)
  {
    && Parts(all, client, server)
    && client.Keys == ToSet(a) + Exchanged(hist, i) && server.Keys == ToSet(b) + Exchanged(hist, i)
  }

  /** Both stores hold at least what they hold after i lists, and besides at most keys of the next list. */
  ghost predicate StoresWithin<V>(a: seq<Key>, b: seq<Key>, hist: nat -> Pair, i: nat, all: Store<V>,
                                  client: Store<V>, server: Store<V>)
  {
    && Parts(all, client, server)
    && ToSet(a) + Exchanged(hist, i) <= client.Keys <= ToSet(a) + Exchanged(hist, i) + ToSet(List(hist, i))
    && ToSet(b) + Exchanged(hist, i) <= server.Keys <= ToSet(b) + Exchanged(hist, i) + ToSet(List(hist, i))
  }

  /** What is left once the client stops without success. */
  ghost predicate StoresAborted<V>(a: seq<Key>, b: seq<Key>, hist: nat -> Pair, i: nat, all: Store<V>,
                                   client: Store<V>, server: Store<V>)
  {
    if GoodList(a, b, hist, i) then StoresAfter(a, b, hist, i + 1, all, client, server)
    else StoresWithin(a, b, hist, i, all, client, server)
  }

  /** What is left after success: the server has what the client had of the last list, and the client has the
      list if the server had the rest of it. */
  ghost predicate StoresFinal<V>(a: seq<Key>, b: seq<Key>, hist: nat -> Pair, i: nat, all: Store<V>, client: Store<V>,
                                 server: Store<V>)
  {
    var mine, theirs, last := ToSet(a) + Exchanged(hist, i), ToSet(b) + Exchanged(hist, i), ToSet(List(hist, i));
    && Parts(all, client, server)
    && server.Keys == theirs + last * mine
    && client.Keys == mine + (if last - mine <= theirs then last else {})
  }

  lemma StoresGenuine(a: set<Key>, b: set<Key>, s: set<Key>, list: seq<Key>)
    requires s <= a + b
    ensures Genuine(a + s, b + s, list) <==> Distinct(list) && ToSet(list) <= SymDiff(a, b) && ToSet(list) !! s
  {
    assert SymDiff(a + s, b + s) == SymDiff(a, b) - s;
  }

  /** Success with a good last list: both stores have all lists. */
  lemma FinalGood<V>(p: Params, k: Minisketch, a: seq<Key>, b: seq<Key>, hist: nat -> Pair, i: nat, all: Store<V>,
                     client: Store<V>, server: Store<V>)
    requires History(p, k, a, b, hist) && GoodList(a, b, hist, i) && StoresFinal(a, b, hist, i, all, client, server)
    ensures StoresAfter(a, b, hist, i + 1, all, client, server)
  {
    NextExchanged(p, k, a, b, hist, i);
    FinalSets(ToSet(a), ToSet(b), Exchanged(hist, i), ToSet(List(hist, i)));
  }

  lemma FinalSets(a: set<Key>, b: set<Key>, s: set<Key>, last: set<Key>)
    requires last <= SymDiff(a, b) && last !! s
    ensures b + s + last * (a + s) == b + (s + last) && last - (a + s) <= b + s
  {
  }

  lemma FirstStores<V>(p: Params, k: Minisketch, a: seq<Key>, b: seq<Key>, hist: nat -> Pair, client: Store<V>,
                       server: Store<V>)
    requires History(p, k, a, b, hist) && ToSet(a) == client.Keys && ToSet(b) == server.Keys
    requires forall k :: k in client && k in server ==> client[k] == server[k]
    ensures StoresAfter(a, b, hist, 0, client + server, client, server)
  {
    assert hist(0).recovered == [];
    assert Flatten(hist(0).recovered) == [];
    assert Exchanged(hist, 0) == {};
  }

  // ---------- the objects of a run ----------

  /** Alice has checked Bob's reply and Bob waits for her hint; `st` is what the next round starts from, unless
      the hint is lost: then Bob will have no group while Alice has one. */
  ghost predicate Waiting(alice: ParityBitmapSketch, bob: ParityBitmapSketch, base: Side, st: Pair, lost: bool)
    reads alice, bob
  {
    && alice != bob && alice.p == bob.p && Inv(alice.p, st)
    && alice.Fresh() && alice.role == Alice && alice.State() == st.alice && alice.recovered == st.recovered
    && 1 <= alice.hintMaxRange == bob.hintMaxRange == bob.live && Increasing(alice.groupsExp)
    && bob.Pending() && bob.Base() == base
    && var heard := BobNext(bob.p, base, bob.groupsBchFailed, Heard(alice.groupsExp, alice.hintMaxRange));
       if lost then heard.groups == [] && |st.alice.groups| == 1 else heard == st.bob
  }

  predicate IsNow(j: nat, i: nat) {
    j == i
  }

  /** The objects before round i + 1. (The quantifier keeps the loop below from looking inside.) */
  ghost predicate Ready(p: Params, k: Minisketch, alice: ParityBitmapSketch, bob: ParityBitmapSketch,
                        hist: nat -> Pair, i: nat)
    reads alice, bob
  {
    && alice.p == p
    && forall j: nat {:trigger IsNow(j, i)} :: IsNow(j, i) ==>
         if j == 0 then Synced(alice, bob, hist(0))
         else Waiting(alice, bob, hist(j - 1).bob, hist(j), !HintArrives(p, k, hist, j - 1))
  }

  lemma ReadyNow(p: Params, k: Minisketch, alice: ParityBitmapSketch, bob: ParityBitmapSketch, hist: nat -> Pair,
                 i: nat)
    requires Ready(p, k, alice, bob, hist, i)
    ensures i != 0 || Synced(alice, bob, hist(0))
    ensures i == 0 || Waiting(alice, bob, hist(i - 1).bob, hist(i), !HintArrives(p, k, hist, i - 1))
  {
    assert IsNow(i, i);
  }

  lemma ReadyNext(p: Params, k: Minisketch, alice: ParityBitmapSketch, bob: ParityBitmapSketch, hist: nat -> Pair,
                  i: nat)
    requires alice.p == p && Waiting(alice, bob, hist(i).bob, hist(i + 1), !HintArrives(p, k, hist, i))
    ensures Ready(p, k, alice, bob, hist, i + 1)
  {
  }

  /** Sketches one way; decoding message, XORs and checksums the other. */
  method AnswerAndCheck(alice: ParityBitmapSketch, bob: ParityBitmapSketch, k: Minisketch, ghost st: Pair)
    returns (done: bool)
    requires Works(alice.p, k) && Synced(alice, bob, st) && st.alice.groups != []
    modifies alice, bob
    ensures var msg := Pack(Results(alice.p, k, st));
            && Answers(st, msg) && alice.recovered == Next(alice.p, st, msg).recovered
            && done == (Next(alice.p, st, msg).alice.groups == [])
            && Waiting(alice, bob, st.bob, Next(alice.p, st, msg),
                       |st.alice.groups| == 1 && Exceptions(alice.p, st, msg) != [])
  {
    ResultsDecoded(alice.p, k, st);
    var results := TransmitSketches(alice, bob, k, st);
    done := Exchange(alice, bob, results, st);
    NextAtHome(alice.p, st, Pack(results));
    WireLockStep(alice.p, st, Pack(results));
  }

  /** Bob has no group, so his reply is empty. The client reads the count of its one group as zero and misses
      the checksum. */
  method CheckEmptyReply(alice: ParityBitmapSketch, bob: ParityBitmapSketch) returns (r: Result<bool>)
    requires Sketched(alice) && alice.role == Alice && |alice.groups| == 1 && |alice.recovered| == alice.round
    requires Sketched(bob) && bob.role == Bob && bob.groups == [] && bob.groupsBchFailed == [] && alice != bob
    modifies alice, bob
    ensures r == Err(RuntimeError)
  {
    var reply := bob.Decode([], []);
    var received := new DecodingCodec.PbsDecodingMessage(alice.p.m, alice.p.t, 1);
    r := alice.DecodeCheck(Reply(DecodingMessage(received.counts, []), reply.value.xors, reply.value.checksums));
  }

  /** The opening of every round but the first: Alice encodes, Bob follows what he hears of her hint. */
  method OpenRound(alice: ParityBitmapSketch, bob: ParityBitmapSketch, ghost base: Side, ghost st: Pair,
                   ghost lost: bool)
    requires Waiting(alice, bob, base, st, lost)
    modifies alice, bob
    ensures lost || Synced(alice, bob, st)
    ensures !lost || (Sketched(alice) && alice.role == Alice && |alice.groups| == 1 && |alice.recovered| == alice.round)
    ensures !lost || (Sketched(bob) && bob.role == Bob && bob.groups == [] && bob.groupsBchFailed == [])
  {
    ghost var heard := BobNext(bob.p, base, bob.groupsBchFailed, Heard(alice.groupsExp, alice.hintMaxRange));
    NextRoundOverWire(alice, bob, Pair(st.alice, heard, st.recovered), base);
  }

  // ---------- the client's loop ----------

  /** Open a round; with a different number of groups the answer is an empty reply and the client fails. */
  method OpenOrFail(alice: ParityBitmapSketch, bob: ParityBitmapSketch, ghost base: Side, ghost st: Pair,
                    ghost lost: bool)
    returns (failed: bool)
    requires Waiting(alice, bob, base, st, lost)
    modifies alice, bob
    ensures failed == lost && (failed || Synced(alice, bob, st))
  {
    OpenRound(alice, bob, base, st, lost);
    failed := |bob.groups| != |alice.groups|;
    if failed {
      var r := CheckEmptyReply(alice, bob);
    }
  }

  /** The rest of round i + 1. */
  method CheckAt(p: Params, k: Minisketch, ghost hist: nat -> Pair, i: nat, alice: ParityBitmapSketch,
                 bob: ParityBitmapSketch)
    returns (done: bool, res: seq<Key>)
    requires Works(p, k) && Follows(p, k, hist, i) && hist(i).alice.groups != []
    requires alice.p == p && Synced(alice, bob, hist(i))
    modifies alice, bob
    ensures done == (hist(i + 1).alice.groups == []) && res == List(hist, i)
    ensures Ready(p, k, alice, bob, hist, i + 1)
  {
    done := AnswerAndCheck(alice, bob, k, hist(i));
    res := alice.recovered[|alice.recovered| - 1];
    ReadyNext(p, k, alice, bob, hist, i);
  }

  /** Round i + 1: it fails exactly if the hint for it was lost. */
  method RoundAt(p: Params, k: Minisketch, ghost a: seq<Key>, ghost b: seq<Key>, ghost hist: nat -> Pair, i: nat,
                 alice: ParityBitmapSketch, bob: ParityBitmapSketch)
    returns (failed: bool, done: bool, res: seq<Key>)
    requires Works(p, k) && History(p, k, a, b, hist) && hist(i).alice.groups != []
    requires Ready(p, k, alice, bob, hist, i)
    modifies alice, bob
    ensures failed <==> i > 0 && !HintArrives(p, k, hist, i - 1)
    ensures failed || (done == (hist(i + 1).alice.groups == []) && res == List(hist, i))
    ensures failed || Ready(p, k, alice, bob, hist, i + 1)
  {
    failed, done, res := false, false, [];
    ReadyNow(p, k, alice, bob, hist, i);
    if i > 0 {
      failed := OpenOrFail(alice, bob, hist(i - 1).bob, hist(i), !HintArrives(p, k, hist, i - 1));
    }
    if !failed {
      assert Follows(p, k, hist, i);
      done, res := CheckAt(p, k, hist, i, alice, bob);
    }
  }

  function Before(i: nat): nat {
    if i == 0 then 0 else i - 1
  }

  /** The list of round i + 1, sent along with the request of the next round. */
  method SyncList<V>(p: Params, k: Minisketch, ghost a: seq<Key>, ghost b: seq<Key>, ghost hist: nat -> Pair,
                     ghost i: nat, res: seq<Key>, client: Store<V>, server: Store<V>, ghost all: Store<V>)
    returns (ok: bool, newClient: Store<V>, newServer: Store<V>)
    requires History(p, k, a, b, hist) && res == List(hist, i) && all.Keys == ToSet(a) + ToSet(b)
    requires StoresAfter(a, b, hist, i, all, client, server)
    ensures ok <==> GoodList(a, b, hist, i)
    ensures StoresAborted(a, b, hist, i, all, newClient, newServer)
  {
    ok, newClient, newServer := SyncInRound(client, server, res, all);
    NextExchanged(p, k, a, b, hist, i);
    assert Exchanged(hist, i) <= client.Keys <= all.Keys;
    StoresGenuine(ToSet(a), ToSet(b), Exchanged(hist, i), res);
  }

  /** Nothing is sent along in the first round, the list of the round before in the others. */
  method SyncEarlier<V>(p: Params, k: Minisketch, ghost a: seq<Key>, ghost b: seq<Key>, ghost hist: nat -> Pair, i: nat,
                        res: seq<Key>, client: Store<V>, server: Store<V>, ghost all: Store<V>)
    returns (ok: bool, newClient: Store<V>, newServer: Store<V>)
    requires History(p, k, a, b, hist) && (0 < i ==> res == List(hist, i - 1)) && all.Keys == ToSet(a) + ToSet(b)
    requires StoresAfter(a, b, hist, Before(i), all, client, server)
    ensures ok <==> i == 0 || GoodList(a, b, hist, i - 1)
    ensures i == 0 || StoresAborted(a, b, hist, i - 1, all, newClient, newServer)
    ensures !ok || StoresAfter(a, b, hist, i, all, newClient, newServer)
  {
    ok, newClient, newServer := true, client, server;
    if i > 0 {
      ok, newClient, newServer := SyncList(p, k, a, b, hist, i - 1, res, client, server, all);
    }
  }

  /** One turn of the loop: the list of the round before, then the sketches. */
  method Turn<V>(p: Params, k: Minisketch, ghost a: seq<Key>, ghost b: seq<Key>, ghost hist: nat -> Pair, i: nat,
                 alice: ParityBitmapSketch, bob: ParityBitmapSketch,
                 res: seq<Key>, client: Store<V>, server: Store<V>, ghost all: Store<V>)
    returns (failed: bool, done: bool, newRes: seq<Key>, newClient: Store<V>, newServer: Store<V>)
    requires Works(p, k) && History(p, k, a, b, hist) && all.Keys == ToSet(a) + ToSet(b)
    requires hist(i).alice.groups != [] && Ready(p, k, alice, bob, hist, i)
    requires StoresAfter(a, b, hist, Before(i), all, client, server) && (0 < i ==> res == List(hist, i - 1))
    modifies alice, bob
    ensures failed <==> i > 0 && !(GoodList(a, b, hist, i - 1) && HintArrives(p, k, hist, i - 1))
    ensures failed || (done == (hist(i + 1).alice.groups == []) && newRes == List(hist, i))
    ensures failed || Ready(p, k, alice, bob, hist, i + 1)
    ensures failed || StoresAfter(a, b, hist, i, all, newClient, newServer)
    ensures !failed || StoresAborted(a, b, hist, i - 1, all, newClient, newServer)
  {
    var ok;
    ok, newClient, newServer := SyncEarlier(p, k, a, b, hist, i, res, client, server, all);
    failed, done, newRes := !ok, false, res;
    if ok {
      failed, done, newRes := RoundAt(p, k, a, b, hist, i, alice, bob);
    }
  }

  method SetUp(p: Params, k: Minisketch, a: seq<Key>, b: seq<Key>, ghost hist: nat -> Pair)
    returns (alice: ParityBitmapSketch, bob: ParityBitmapSketch)
    requires History(p, k, a, b, hist)
    ensures fresh(alice) && fresh(bob) && Ready(p, k, alice, bob, hist, 0) && hist(0).alice.groups != []
  {
    alice := NewSketch(p, a);
    bob := NewSketch(p, b);
    StartEverything(p, a, b);
  }

  /** The first rounds up to r, after each of which the run goes on. */
  ghost predicate Going(p: Params, k: Minisketch, a: seq<Key>, b: seq<Key>, hist: nat -> Pair, r: nat) {
    forall i: nat :: i + 1 < r ==> Continues(p, k, a, b, hist, i)
  }

  lemma GoingOn(p: Params, k: Minisketch, a: seq<Key>, b: seq<Key>, hist: nat -> Pair, r: nat)
    requires Going(p, k, a, b, hist, r) && (r > 0 ==> Continues(p, k, a, b, hist, r - 1))
    ensures Going(p, k, a, b, hist, r + 1)
  {
  }

  /** The loop, up to the exchange after completion. */
  method Loop<V>(p: Params, k: Minisketch, ghost a: seq<Key>, ghost b: seq<Key>, ghost hist: nat -> Pair,
                 alice: ParityBitmapSketch, bob: ParityBitmapSketch,
                 client0: Store<V>, server0: Store<V>, ghost all: Store<V>)
    returns (failed: bool, completed: bool, rounds: nat, res: seq<Key>, client: Store<V>, server: Store<V>)
    requires Works(p, k) && History(p, k, a, b, hist) && all.Keys == ToSet(a) + ToSet(b)
    requires hist(0).alice.groups != [] && Ready(p, k, alice, bob, hist, 0)
             && StoresAfter(a, b, hist, 0, all, client0, server0)
    modifies alice, bob
    ensures 1 <= rounds <= PBS_MAX_ROUNDS && Going(p, k, a, b, hist, rounds)
    ensures completed == (hist(rounds).alice.groups == []) && res == List(hist, rounds - 1)
    ensures failed ==> !completed && rounds < PBS_MAX_ROUNDS && !Continues(p, k, a, b, hist, rounds - 1)
    ensures !failed ==> completed || rounds == PBS_MAX_ROUNDS
    ensures failed || StoresAfter(a, b, hist, rounds - 1, all, client, server)
    ensures !failed || StoresAborted(a, b, hist, rounds - 1, all, client, server)
  {
    failed, completed, rounds, res, client, server := false, false, 0, [], client0, server0;
    while !failed && !completed && rounds < PBS_MAX_ROUNDS
      invariant rounds <= PBS_MAX_ROUNDS && Going(p, k, a, b, hist, rounds)
      invariant completed == (hist(rounds).alice.groups == []) && (rounds == 0 ==> !completed && !failed)
      invariant 0 < rounds ==> res == List(hist, rounds - 1)
      invariant failed ==> !completed && rounds < PBS_MAX_ROUNDS && !Continues(p, k, a, b, hist, rounds - 1)
      invariant failed || Ready(p, k, alice, bob, hist, rounds)
      invariant failed || StoresAfter(a, b, hist, Before(rounds), all, client, server)
      invariant !failed || StoresAborted(a, b, hist, Before(rounds), all, client, server)
      decreases PBS_MAX_ROUNDS - rounds, if failed then 0 else 1
    {
      var done, list;
      failed, done, list, client, server := Turn(p, k, a, b, hist, rounds, alice, bob, res, client, server, all);
      if !failed {
        GoingOn(p, k, a, b, hist, rounds);
        completed, res, rounds := done, list, rounds + 1;
      }
    }
  }

  /** The exchange after the loop, if it completed. */
  method Finish<V>(ghost a: seq<Key>, ghost b: seq<Key>, ghost hist: nat -> Pair, ghost i: nat,
                   res: seq<Key>, client: Store<V>, server: Store<V>, ghost all: Store<V>)
    returns (newClient: Store<V>, newServer: Store<V>)
    requires StoresAfter(a, b, hist, i, all, client, server) && res == List(hist, i)
    ensures StoresFinal(a, b, hist, i, all, newClient, newServer)
  {
    newClient, newServer := FinalSync(client, server, res, all);
  }

  /** When the run is over and its lists were good, both stores hold everything exactly if the dropped
      leftovers cancel. */
  lemma CompleteIffNothingLost<V>(p: Params, k: Minisketch, a: seq<Key>, b: seq<Key>, hist: nat -> Pair, r: nat,
                                  all: Store<V>, client: Store<V>, server: Store<V>)
    requires Distinct(a) && Distinct(b) && all.Keys == ToSet(a) + ToSet(b) && History(p, k, a, b, hist)
    requires hist(r).alice.groups == [] && forall i: nat :: i < r ==> GoodList(a, b, hist, i)
    requires StoresAfter(a, b, hist, r, all, client, server)
    ensures var msgs := Messages(p, k, hist, r);
            IsRun(p, Start(p, a, b), msgs)
            && (client == server == all <==> BigSymDiff(AllDropped(p, Start(p, a, b), msgs)) == {})
  {
    var flat := Flatten(hist(r).recovered);
    GoodLists(p, k, a, b, hist, r);
    HistoryIsRun(p, k, a, b, hist, r);
    RunRecoversDifference(p, a, b, Messages(p, k, hist, r));
    OddDistinct(a);
    OddDistinct(b);
    OddDistinct(flat);
    WholeIff(all, ToSet(a), ToSet(b), ToSet(flat), client, server);
  }

  lemma WholeIff<V>(all: Store<V>, a: set<Key>, b: set<Key>, s: set<Key>, client: Store<V>, server: Store<V>)
    requires all.Keys == a + b && s <= SymDiff(a, b) && Parts(all, client, server)
    requires client.Keys == a + s && server.Keys == b + s
    ensures client == server == all <==> s == SymDiff(a, b)
  {
    if s == SymDiff(a, b) {
      PartWhole(client, all);
      PartWhole(server, all);
    }
  }

  lemma WentWell(p: Params, k: Minisketch, a: seq<Key>, b: seq<Key>, hist: nat -> Pair, r: nat)
    requires 1 <= r && Going(p, k, a, b, hist, r)
    ensures forall i: nat :: i + 1 < r ==> GoodList(a, b, hist, i)
  {
    forall i: nat | i + 1 < r
      ensures GoodList(a, b, hist, i)
    {
      assert Continues(p, k, a, b, hist, i);
    }
  }

  lemma AllGood(a: seq<Key>, b: seq<Key>, hist: nat -> Pair, r: nat)
    requires 1 <= r && (forall i: nat :: i + 1 < r ==> GoodList(a, b, hist, i)) && GoodList(a, b, hist, r - 1)
    ensures forall i: nat :: i < r ==> GoodList(a, b, hist, i)
  {
    forall i: nat | i < r
      ensures GoodList(a, b, hist, i)
    {
      assert i + 1 < r || i == r - 1;
    }
  }

  /** What a client run comes to, whatever the keys and hashes are. */
  ghost predicate Outcome<V>(p: Params, k: Minisketch, a: seq<Key>, b: seq<Key>, hist: nat -> Pair, all: Store<V>,
                             completed: bool, rounds: nat, client: Store<V>, server: Store<V>)
  {
    && 1 <= rounds <= PBS_MAX_ROUNDS && Going(p, k, a, b, hist, rounds)
    && completed == (hist(rounds).alice.groups == [])
    && (completed ==> StoresFinal(a, b, hist, rounds - 1, all, client, server))
    && (!completed && rounds < PBS_MAX_ROUNDS ==>
          !Continues(p, k, a, b, hist, rounds - 1) && StoresAborted(a, b, hist, rounds - 1, all, client, server))
    && (!completed && rounds == PBS_MAX_ROUNDS ==> StoresAfter(a, b, hist, rounds - 1, all, client, server))
  }

  /** How many rounds there are, and when the run is reported as complete: the client goes on after the first and the
      second round if it can, and never after the third. */
  lemma RoundsAre<V>(p: Params, k: Minisketch, a: seq<Key>, b: seq<Key>, hist: nat -> Pair, all: Store<V>,
                     completed: bool, rounds: nat, client: Store<V>, server: Store<V>)
    requires Outcome(p, k, a, b, hist, all, completed, rounds, client, server)
    ensures rounds == if !Continues(p, k, a, b, hist, 0) then 1 else if !Continues(p, k, a, b, hist, 1) then 2 else 3
    ensures completed == (hist(rounds).alice.groups == [])
  {
    assert 1 < rounds ==> Continues(p, k, a, b, hist, 0);
    assert 2 < rounds ==> Continues(p, k, a, b, hist, 1);
  }

  /** The client's loop. It reports success exactly if a round within the first three leaves no group, and until
      then every list was genuine and every hint arrived; otherwise it stops at the first that was not, or after
      three rounds. The stores are what Outcome says. */
  method Reconcile<V>(p: Params, k: Minisketch, a: seq<Key>, b: seq<Key>, ghost hist: nat -> Pair, client0: Store<V>,
                      server0: Store<V>)
    returns (completed: bool, rounds: nat, client: Store<V>, server: Store<V>)
    requires Works(p, k) && History(p, k, a, b, hist) && ToSet(a) == client0.Keys && ToSet(b) == server0.Keys
    requires forall x :: x in client0 && x in server0 ==> client0[x] == server0[x]
    ensures Outcome(p, k, a, b, hist, client0 + server0, completed, rounds, client, server)
    ensures rounds == if !Continues(p, k, a, b, hist, 0) then 1 else if !Continues(p, k, a, b, hist, 1) then 2 else 3
  {
    ghost var all := client0 + server0;
    FirstStores(p, k, a, b, hist, client0, server0);
    var alice, bob := SetUp(p, k, a, b, hist);
    var failed, res;
    failed, completed, rounds, res, client, server := Loop(p, k, a, b, hist, alice, bob, client0, server0, all);
    if completed {
      client, server := Finish(a, b, hist, rounds - 1, res, client, server, all);
    }
    RoundsAre(p, k, a, b, hist, all, completed, rounds, client, server);
  }

  /** The stores after success, as sets of keys: s are the keys of the earlier lists, last those of the last one. */
  lemma SuccessSets<V>(all: Store<V>, a: set<Key>, b: set<Key>, s: set<Key>, last: set<Key>,
                       client: Store<V>, server: Store<V>)
    requires all.Keys == a + b && s <= SymDiff(a, b) && Parts(all, client, server)
    requires server.Keys == b + s + last * (a + s)
    requires client.Keys == a + s + (if last - (a + s) <= b + s then last else {})
    ensures client == server == all <==> SymDiff(a, b) <= s + last && (last <= all.Keys || b - a <= s)
  {
    ServerWhole(a, b, s, last);
    ClientWhole(a, b, s, last);
    if client.Keys == server.Keys == all.Keys {
      PartWhole(client, all);
      PartWhole(server, all);
    }
  }

  lemma ServerWhole(a: set<Key>, b: set<Key>, s: set<Key>, last: set<Key>)
    requires s <= SymDiff(a, b)
    ensures b + s + last * (a + s) == a + b <==> a - b <= s + last
  {
    assert b + s + last * (a + s) <= a + b;
    if a - b <= s + last {
      forall x | x in a + b
        ensures x in b + s + last * (a + s)
      {
      }
    }
    if b + s + last * (a + s) == a + b {
      forall x | x in a - b
        ensures x in s + last
      {
        assert x in a + b;
      }
    }
  }

  lemma ClientWhole(a: set<Key>, b: set<Key>, s: set<Key>, last: set<Key>)
    requires s <= SymDiff(a, b)
    ensures last - (a + s) <= b + s <==> last <= a + b
    ensures a + s == a + b <==> b - a <= s
    ensures last <= a + b ==> (a + s + last == a + b <==> b - a <= s + last)
  {
    forall x | x in b - a
      ensures a + s == a + b ==> x in s
      ensures a + s + last == a + b ==> x in s + last
    {
      assert x in a + b;
    }
    if last - (a + s) <= b + s {
      forall x | x in last
        ensures x in a + b
      {
        assert x in a + s || x in b + s;
      }
    }
  }

  /** What success means, whatever the lists are: both stores are the union of the initial ones if and only if the
      lists together name all keys that differ, and either the last list names no key that is in neither store, or
      the client does not need it. */
  lemma SuccessMeans<V>(p: Params, k: Minisketch, a: seq<Key>, b: seq<Key>, hist: nat -> Pair, all: Store<V>,
                        rounds: nat, client: Store<V>, server: Store<V>)
    requires all.Keys == ToSet(a) + ToSet(b) && History(p, k, a, b, hist)
    requires Outcome(p, k, a, b, hist, all, true, rounds, client, server)
    ensures var earlier, last := Exchanged(hist, rounds - 1), ToSet(List(hist, rounds - 1));
            client == server == all <==>
            SymDiff(ToSet(a), ToSet(b)) <= earlier + last && (last <= all.Keys || ToSet(b) - ToSet(a) <= earlier)
  {
    WentWell(p, k, a, b, hist, rounds);
    GoodLists(p, k, a, b, hist, rounds - 1);
    SuccessSets(all, ToSet(a), ToSet(b), Exchanged(hist, rounds - 1), ToSet(List(hist, rounds - 1)), client, server);
  }

  /** If the last list is genuine like those before it, that is so exactly if the leftovers that finished groups
      dropped cancel. */
  lemma GenuineSuccess<V>(p: Params, k: Minisketch, a: seq<Key>, b: seq<Key>, hist: nat -> Pair, all: Store<V>,
                          rounds: nat, client: Store<V>, server: Store<V>)
    requires Distinct(a) && Distinct(b) && all.Keys == ToSet(a) + ToSet(b) && History(p, k, a, b, hist)
    requires Outcome(p, k, a, b, hist, all, true, rounds, client, server) && GoodList(a, b, hist, rounds - 1)
    ensures StoresAfter(a, b, hist, rounds, all, client, server)
    ensures var msgs := Messages(p, k, hist, rounds);
            IsRun(p, Start(p, a, b), msgs)
            && (client == server == all <==> BigSymDiff(AllDropped(p, Start(p, a, b), msgs)) == {})
  {
    WentWell(p, k, a, b, hist, rounds);
    AllGood(a, b, hist, rounds);
    FinalGood(p, k, a, b, hist, rounds - 1, all, client, server);
    CompleteIffNothingLost(p, k, a, b, hist, rounds, all, client, server);
  }

  // ---------- the case the protocol is made for ----------

  /** In every group the differing keys lie in different bins and do not exceed the capacity. */
  ghost predicate IdealStart(p: Params, a: seq<Key>, b: seq<Key>) {
    Inv(p, Start(p, a, b)) && forall g :: 0 <= g < p.numGroups ==>
      Ideal(p, Start(p, a, b), g) && |Merged(p, Start(p, a, b), g)| <= p.t
  }

  lemma IdealDecoded(p: Params, k: Minisketch, a: seq<Key>, b: seq<Key>, st: Pair, msg: DecodingMessage)
    requires Works(p, k) && IdealStart(p, a, b) && st == Start(p, a, b) && msg == Pack(Results(p, k, st))
    ensures Answers(st, msg) && BinsDistinct(msg) && Distinct(st.alice.home)
    ensures forall g :: 0 <= g < |st.alice.groups| ==> DecodedRight(p, st, msg, g) && Ideal(p, st, g)
  {
    ResultsDecoded(p, k, st);
    ResultsInRow(p, st, Results(p, k, st));
    forall g | 0 <= g < |st.alice.groups|
      ensures DecodedRight(p, st, msg, g)
    {
      WithinCapacity(p, st, Results(p, k, st), g);
    }
  }

  /** The first round recovers exactly the difference. */
  lemma IdealFirstRound(p: Params, k: Minisketch, a: seq<Key>, b: seq<Key>, hist: nat -> Pair)
    requires Works(p, k) && Distinct(a) && Distinct(b) && History(p, k, a, b, hist) && IdealStart(p, a, b)
    ensures hist(1).alice.groups == [] && GoodList(a, b, hist, 0)
    ensures Exchanged(hist, 1) == SymDiff(ToSet(a), ToSet(b))
  {
    var st, msg := hist(0), Pack(Results(p, k, hist(0)));
    assert Follows(p, k, hist, 0);
    IdealDecoded(p, k, a, b, st, msg);
    IdealRoundCompletes(p, st, msg);
    RoundDistinct(p, st, msg);
    StartEverything(p, a, b);
    OddDistinct(a);
    OddDistinct(b);
    OnlyList(hist(0).recovered, hist(1).recovered, Flatten(Recs(p, st.alice, ReplyTo(p, st, msg))));
  }

  lemma OnlyList(before: seq<seq<Key>>, after: seq<seq<Key>>, list: seq<Key>)
    requires before == [] && after == before + [list] && Distinct(list)
    ensures Flatten(before) == [] && Flatten(after) == list && after[0] == list && Odd(Flatten(after)) == ToSet(list)
  {
    FlattenSnoc(before, list);
    assert [] + list == list;
    OddDistinct(list);
  }

  /** From the initial data alone: one sketch, and both stores are the union of the two. */
  method ReconcileIdeal<V>(p: Params, k: Minisketch, a: seq<Key>, b: seq<Key>, client0: Store<V>, server0: Store<V>)
    returns (completed: bool, rounds: nat, client: Store<V>, server: Store<V>)
    requires Works(p, k) && Distinct(a) && Distinct(b) && IdealStart(p, a, b)
    requires ToSet(a) == client0.Keys && ToSet(b) == server0.Keys
    requires forall x :: x in client0 && x in server0 ==> client0[x] == server0[x]
    ensures completed && rounds == 1 && client == server == client0 + server0
  {
    ghost var hist := HistoryExists(p, k, a, b);
    completed, rounds, client, server := Reconcile(p, k, a, b, hist, client0, server0);
    IdealFirstRound(p, k, a, b, hist);
    IdealOutcome(p, k, a, b, hist, client0 + server0, completed, rounds, client, server);
  }

  lemma IdealOutcome<V>(p: Params, k: Minisketch, a: seq<Key>, b: seq<Key>, hist: nat -> Pair, all: Store<V>,
                        completed: bool, rounds: nat, client: Store<V>, server: Store<V>)
    requires History(p, k, a, b, hist) && hist(1).alice.groups == [] && GoodList(a, b, hist, 0)
    requires Exchanged(hist, 1) == SymDiff(ToSet(a), ToSet(b))
    requires all.Keys == ToSet(a) + ToSet(b) && Outcome(p, k, a, b, hist, all, completed, rounds, client, server)
    ensures completed && rounds == 1 && client == server == all
  {
    OneRoundOnly(p, k, a, b, hist, rounds);
    FinalGood(p, k, a, b, hist, 0, all, client, server);
    WholeIff(all, ToSet(a), ToSet(b), Exchanged(hist, 1), client, server);
  }

  lemma OneRoundOnly(p: Params, k: Minisketch, a: seq<Key>, b: seq<Key>, hist: nat -> Pair, r: nat)
    requires 1 <= r && Going(p, k, a, b, hist, r) && hist(1).alice.groups == []
    ensures r == 1
  {
    BeyondFirst(p, k, a, b, hist, r);
  }

  lemma BeyondFirst(p: Params, k: Minisketch, a: seq<Key>, b: seq<Key>, hist: nat -> Pair, r: nat)
    requires Going(p, k, a, b, hist, r)
    ensures 1 < r ==> Continues(p, k, a, b, hist, 0)
  {
  }
}
