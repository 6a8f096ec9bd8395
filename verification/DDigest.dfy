/**
 The DDigest exchange: the client sends the cells of a table of its keys, the server subtracts them from its
 own and peels.
 */
module DDigest {
  import opened Arithmetic
  import opened Parity
  import opened IbltSpec
  import opened Iblt
  import Stores

  /** The cells for an expected number of entries: the next multiple of the number of hash functions. */
  method TableSize(entries: nat, numHashes: nat) returns (size: nat)
    requires 1 <= numHashes
    ensures entries <= size < entries + numHashes
    ensures size == Area(numHashes, Div(size, numHashes))
  {
    size := entries;
    ghost var least := Mod(entries, numHashes);
    while Mod(size, numHashes) != 0
      invariant entries <= size && least + (size - entries) <= numHashes && (least == 0 ==> size == entries)
      invariant Mod(size, numHashes) == if least + (size - entries) == numHashes then 0 else least + (size - entries)
      decreases numHashes - (least + (size - entries))
    {
      ModNext(size, numHashes);
      size := size + 1;
    }
    DivMod(size, numHashes);
  }

  /** A new table for an expected number of entries: with the hash functions given, it has as many cells. */
  method NewTable(spot: (nat, Key) -> nat, check: Key -> Key, entries: nat, numHashes: nat, valueSize: nat)
    returns (t: IBLT)
    requires 1 <= entries && 1 <= numHashes
    ensures t.Valid() && TableHolds(t.h, t.table, {}) && entries <= |t.table| == Size(t.h) < entries + numHashes
    ensures t.h == RawShape(spot, check, numHashes, t.h.buckets, valueSize)
  {
    var size := TableSize(entries, numHashes);
    var buckets := Div(size, numHashes);
    AreaIsProduct(numHashes, buckets);
    AreaIsProduct(buckets, numHashes);
    t := new IBLT(RawShape(spot, check, numHashes, buckets, valueSize));
  }

  lemma {:induction false} ModNext(x: nat, m: nat)
    requires 1 <= m
    ensures Mod(x + 1, m) == if Mod(x, m) == m - 1 then 0 else Mod(x, m) + 1
    decreases x
  {
    if x >= m {
      ModNext(x - m, m);
      assert x + 1 - m == x - m + 1;
    } else {
      assert x + 1 == m ==> Mod(x + 1 - m, m) == 0;
    }
  }

  method Fill(h: Shape, keys: seq<Key>) returns (t: IBLT)
    requires h.valueSize == 1 && Distinct(keys)
    ensures t.h == h && t.Valid() && TableHolds(h, t.table, KeyEntries(ToSet(keys)))
  {
    t := new IBLT(h);
    var i := 0;
    assert KeyEntries(ToSet(keys[..0])) == {};
    while i < |keys|
      invariant i <= |keys| && t.h == h && t.Valid() && fresh(t) && TableHolds(h, t.table, KeyEntries(ToSet(keys[..i])))
    {
      ghost var before, was := KeyEntries(ToSet(keys[..i])), t.table;
      OneMoreKey(keys, i);
      InsertedNoFalse(h, Toggle(before, KeyEntry(keys[i])));
      t.Insert(keys[i], [ZERO]);
      TableUpdated(h, was, t.table, before, KeyEntry(keys[i]));
      i := i + 1;
    }
    assert keys[..i] == keys;
  }

  lemma OneMoreKey(keys: seq<Key>, i: nat)
    requires Distinct(keys) && i < |keys|
    ensures KeyEntry(keys[i]) !in KeyEntries(ToSet(keys[..i]))
    ensures Toggle(KeyEntries(ToSet(keys[..i])), KeyEntry(keys[i]))
            == KeyEntries(ToSet(keys[..i + 1])) <= KeyEntries(ToSet(keys))
  {
    assert keys[..i + 1] == keys[..i] + [keys[i]];
    assert ToSet(keys[..i + 1]) == ToSet(keys[..i]) + {keys[i]};
    KeyEntriesMore(ToSet(keys[..i]), keys[i]);
    assert forall e :: e in KeyEntries(ToSet(keys[..i])) ==> e.plus;
    assert ToSet(keys[..i + 1]) <= ToSet(keys);
  }

  lemma KeyEntriesMore(keys: set<Key>, k: Key)
    ensures KeyEntries(keys + {k}) == KeyEntries(keys) + {KeyEntry(k)}
    ensures KeyEntry(k) in KeyEntries(keys) <==> k in keys
  {
  }

  lemma KeysOnly(a: set<Key>, b: set<Key>)
    ensures (set i | i in Signed(Difference(KeyEntries(a), KeyEntries(b)), true) :: i.0) == a - b
    ensures (set i | i in Signed(Difference(KeyEntries(a), KeyEntries(b)), false) :: i.0) == b - a
  {
    var d := Difference(KeyEntries(a), KeyEntries(b));
    forall k: Key
      ensures k in a - b ==> (k, [ZERO]) in Signed(d, true)
      ensures k in b - a ==> (k, [ZERO]) in Signed(d, false)
    {
      if k in a - b {
        assert KeyEntry(k) in KeyEntries(a) && KeyEntry(k) in d;
      }
      if k in b - a {
        assert KeyEntry(k) in KeyEntries(b) - KeyEntries(a);
        assert Neg(KeyEntry(k)) in d;
      }
    }
  }

  /** The i-th hash function throws different keys into different cells. */
  ghost predicate Apart(h: Shape, keys: set<Key>, i: nat) {
    forall k, l :: k in keys && l in keys && k != l ==> h.spot(i, k) % h.buckets != h.spot(i, l) % h.buckets
  }

  lemma DifferingKeys(a: set<Key>, b: set<Key>)
    ensures forall e :: e in Difference(KeyEntries(a), KeyEntries(b)) ==>
              e == Entry(e.key, [ZERO], e.key in a) && e.key in SymDiff(a, b)
  {
    forall e | e in Difference(KeyEntries(a), KeyEntries(b))
      ensures e == Entry(e.key, [ZERO], e.key in a) && e.key in SymDiff(a, b)
    {
      if e !in KeyEntries(a) - KeyEntries(b) {
        var f :| f in KeyEntries(b) - KeyEntries(a) && e == Neg(f);
        assert KeyEntry(f.key) == f;
      } else {
        assert KeyEntry(e.key) == e;
      }
    }
  }

  /** If one of the hash functions keeps all keys apart that only one host has, nothing is stuck. */
  lemma ApartCore(h: Shape, a: set<Key>, b: set<Key>, i: nat)
    requires i < h.numHashes && Apart(h, SymDiff(a, b), i)
    ensures Core(h, Difference(KeyEntries(a), KeyEntries(b))) == {}
  {
    DifferingKeys(a, b);
    SeparatedCore(h, Difference(KeyEntries(a), KeyEntries(b)), i);
  }

  function Position(s: seq<Key>, k: Key): (i: nat)
    ensures i <= |s| && (i < |s| ==> s[i] == k) && (k in s ==> i < |s|)
  {
    if s == [] then 0
    else
      var i := Position(s[..|s| - 1], k);
      if i < |s| - 1 then i else if s[|s| - 1] == k then |s| - 1 else |s|
  }

  /** Hash functions that tell the keys of a list by their position. */
  function PositionShape(all: seq<Key>): Shape {
    RawShape((_, k) => Position(all, k), k => Key({Position(all, k)}), 3, |all| + 1, 1)
  }

  lemma PositionsDiffer(all: seq<Key>, k: Key, l: Key)
    requires k in all && l in all && k != l
    ensures var h := PositionShape(all);
            h.check(k) != h.check(l) && h.spot(0, k) % h.buckets != h.spot(0, l) % h.buckets
  {
    var x, y := Position(all, k), Position(all, l);
    assert x != y && x in PositionShape(all).check(k).ones && x !in PositionShape(all).check(l).ones;
    RemainderUnique(x, |all| + 1, 0, x);
    RemainderUnique(y, |all| + 1, 0, y);
  }

  lemma OneBitPositions(all: seq<Key>, s: set<Entry>)
    requires forall e :: e in s ==> e.key in all
    requires forall e, f :: e in s && f in s && e.key == f.key ==> e == f
    ensures OneBitChecks(PositionShape(all), s)
  {
    forall e, f | e in s && f in s && e != f
      ensures PositionShape(all).check(e.key) != PositionShape(all).check(f.key)
    {
      PositionsDiffer(all, e.key, f.key);
    }
  }

  /** For any two lists of keys there are hash functions with which no cell deceives and nothing is stuck. */
  lemma HashesExist(client: seq<Key>, server: seq<Key>) returns (h: Shape)
    ensures h.valueSize == 1
    ensures NoFalse(h, Difference(KeyEntries(ToSet(server)), KeyEntries(ToSet(client))))
    ensures Core(h, Difference(KeyEntries(ToSet(server)), KeyEntries(ToSet(client)))) == {}
  {
    var all, d := client + server, Difference(KeyEntries(ToSet(server)), KeyEntries(ToSet(client)));
    h := PositionShape(all);
    DifferingKeys(ToSet(server), ToSet(client));
    OneBitPositions(all, d);
    OneBitNoFalse(h, d);
    forall k, l | k in SymDiff(ToSet(server), ToSet(client)) && l in SymDiff(ToSet(server), ToSet(client)) && k != l
      ensures h.spot(0, k) % h.buckets != h.spot(0, l) % h.buckets
    {
      PositionsDiffer(all, k, l);
    }
    ApartCore(h, ToSet(server), ToSet(client), 0);
  }

  function KeysOf(items: set<Item>): set<Key> {
    set i | i in items :: i.0
  }

  /** The server's answer to a client's cells: it succeeds exactly if nothing in the difference is stuck, and
      then the two lists are exactly the keys only the server has, and those only the client has. */
  method Answer(h: Shape, cells: seq<Wire>, server: seq<Key>, ghost client: set<Key>, ghost sent: seq<Cell>)
    returns (succeed: bool, pos: set<Item>, neg: set<Item>)
    requires h.valueSize == 1 && Distinct(server) && TableHolds(h, sent, KeyEntries(client))
    requires |cells| == |sent| && forall c :: 0 <= c < |sent| ==> cells[c] == Wired(sent[c])
    requires NoFalse(h, Difference(KeyEntries(ToSet(server)), KeyEntries(client)))
    ensures succeed <==> Core(h, Difference(KeyEntries(ToSet(server)), KeyEntries(client))) == {}
    ensures succeed ==> KeysOf(pos) == ToSet(server) - client && KeysOf(neg) == client - ToSet(server)
  {
    ghost var mine, theirs := KeyEntries(ToSet(server)), KeyEntries(client);
    var own := Fill(h, server);
    var other := new IBLT(h);
    other.SetCells(cells);
    WiredHolds(h, sent, other.table, theirs);
    var diff := own.Subtract(other);
    TableMinus(h, own.table, other.table, diff.table, mine, theirs);
    succeed, pos, neg := diff.ListEntries({}, {}, Difference(mine, theirs));
    if succeed {
      assert Difference(mine, theirs) - Core(h, Difference(mine, theirs)) == Difference(mine, theirs);
      KeysOnly(ToSet(server), client);
    }
  }

  /** The keys of a set of items, each once, in some order. */
  method ListKeys(items: set<Item>) returns (keys: seq<Key>)
    ensures ToSet(keys) == KeysOf(items) && Distinct(keys)
  {
    keys := [];
    var left := KeysOf(items);
    ghost var all := left;
    while left != {}
      invariant ToSet(keys) + left == all && ToSet(keys) !! left && Distinct(keys)
      decreases |left|
    {
      var k :| k in left;
      Stores.DistinctSnoc(keys, k);
      keys := keys + [k];
      left := left - {k};
    }
  }

  /** The whole exchange between two stores that agree on common keys. It succeeds exactly if nothing in the
      difference is stuck; then both stores are the union, and otherwise neither changes. The server always
      has the keys that it is to push. */
  method Reconcile<V>(h: Shape, client: Stores.Store<V>, clientKeys: seq<Key>, server: Stores.Store<V>,
                      serverKeys: seq<Key>)
    returns (succeed: bool, newClient: Stores.Store<V>, newServer: Stores.Store<V>)
    requires h.valueSize == 1 && Distinct(clientKeys) && Distinct(serverKeys)
    requires ToSet(clientKeys) == client.Keys && ToSet(serverKeys) == server.Keys
    requires forall k :: k in client && k in server ==> client[k] == server[k]
    requires NoFalse(h, Difference(KeyEntries(server.Keys), KeyEntries(client.Keys)))
    ensures succeed <==> Core(h, Difference(KeyEntries(server.Keys), KeyEntries(client.Keys))) == {}
    ensures if succeed then newClient == newServer == client + server else newClient == client && newServer == server
    ensures (exists i: nat :: i < h.numHashes && Apart(h, SymDiff(server.Keys, client.Keys), i)) ==> succeed
  {
    forall i: nat | i < h.numHashes && Apart(h, SymDiff(server.Keys, client.Keys), i)
      ensures Core(h, Difference(KeyEntries(server.Keys), KeyEntries(client.Keys))) == {}
    {
      ApartCore(h, server.Keys, client.Keys, i);
    }
    var table := Fill(h, clientKeys);
    var cells := table.Data();
    var pos, neg;
    succeed, pos, neg := Answer(h, cells, serverKeys, client.Keys, table.table);
    newClient, newServer := client, server;
    if succeed {
      succeed, newClient, newServer := Exchange(client, server, pos, neg);
    }
  }

  /** What is done with the answer: the server looks up what to push, the client inserts it and pushes what the
      server lacks. */
  method Exchange<V>(client: Stores.Store<V>, server: Stores.Store<V>, pos: set<Item>, neg: set<Item>)
    returns (ok: bool, newClient: Stores.Store<V>, newServer: Stores.Store<V>)
    requires forall k :: k in client && k in server ==> client[k] == server[k]
    requires KeysOf(pos) == server.Keys - client.Keys && KeysOf(neg) == client.Keys - server.Keys
    ensures ok && newClient == newServer == client + server
  {
    ghost var all := client + server;
    var pushes := ListKeys(pos);
    var missing := ListKeys(neg);
    var items;
    ok, items := Stores.LookUpAll(server, pushes);
    Stores.FromPart(items, server, all);
    ok, newClient := Stores.InsertNew(client, items);
    Stores.GrownPart(client, items, newClient, all);
    Stores.PartWhole(newClient, all);
    var found, own := Stores.LookUpAll(newClient, missing);
    Stores.FromPart(own, newClient, all);
    var reply;
    reply, newServer := Stores.Synchronize(server, own, []);
    Stores.GrownPart(server, own, newServer, all);
    Stores.PartWhole(newServer, all);
  }
}
