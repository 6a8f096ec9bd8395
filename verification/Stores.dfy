/**
 The key-value stores of client and server and the messages that fill them up.
 */
module Stores {
  import opened Wrappers
  import opened Parity

  type Store<V> = map<Key, V>

  /** What a request or reply carries for a list of keys. */
  datatype Item<V> = Item(key: Key, value: V)

  ghost function Keys<V>(items: seq<Item<V>>): set<Key> {
    set i | 0 <= i < |items| :: items[i].key
  }

  ghost predicate NoRepeats<V>(items: seq<Item<V>>) {
    forall i, j :: 0 <= i < j < |items| ==> items[i].key != items[j].key
  }

  ghost predicate From<V>(items: seq<Item<V>>, all: Store<V>) {
    forall i :: 0 <= i < |items| ==> items[i].key in all && all[items[i].key] == items[i].value
  }

  /** `all` extends `store`. */
  ghost predicate Part<V>(store: Store<V>, all: Store<V>) {
    forall k :: k in store ==> k in all && store[k] == all[k]
  }

  /** `now` holds all that `store` does, and nothing else but offered items. */
  ghost predicate Grown<V>(store: Store<V>, items: seq<Item<V>>, now: Store<V>) {
    && (forall k :: k in store ==> k in now && now[k] == store[k])
    && (forall k :: k in now ==> k in store || Item(k, now[k]) in items)
  }

  lemma PartWhole<V>(store: Store<V>, all: Store<V>)
    requires Part(store, all) && store.Keys == all.Keys
    ensures store == all
  {
  }

  /** Growing by items of a whole stays a part of it. */
  lemma GrownPart<V>(store: Store<V>, items: seq<Item<V>>, now: Store<V>, all: Store<V>)
    requires Part(store, all) && From(items, all) && Grown(store, items, now)
    ensures Part(now, all) && store.Keys <= now.Keys
  {
  }

  lemma FromPart<V>(items: seq<Item<V>>, part: Store<V>, all: Store<V>)
    requires From(items, part) && Part(part, all)
    ensures From(items, all)
  {
  }

  lemma KeysSnoc<V>(items: seq<Item<V>>, item: Item<V>)
    ensures Keys(items + [item]) == Keys(items) + {item.key}
    ensures NoRepeats(items + [item]) <==> NoRepeats(items) && item.key !in Keys(items)
  {
    assert forall i :: 0 <= i < |items| ==> (items + [item])[i] == items[i];
    assert (items + [item])[|items|] == item;
  }

  // ---------- the client's request ----------

  /** What the client has of the list, and what it lacks. */
  method Sort<V>(store: Store<V>, res: seq<Key>) returns (pushed: seq<Item<V>>, missing: seq<Key>)
    ensures Keys(pushed) == ToSet(res) * store.Keys && From(pushed, store)
    ensures ToSet(missing) == ToSet(res) - store.Keys
    ensures Distinct(res) <==> NoRepeats(pushed) && Distinct(missing)
  {
    pushed, missing := [], [];
    var i := 0;
    while i < |res|
      invariant i <= |res|
      invariant Keys(pushed) == ToSet(res[..i]) * store.Keys && From(pushed, store)
      invariant ToSet(missing) == ToSet(res[..i]) - store.Keys
      invariant Distinct(res[..i]) <==> NoRepeats(pushed) && Distinct(missing)
    {
      var k := res[i];
      NextKey(res, i);
      if k in store {
        KeysSnoc(pushed, Item(k, store[k]));
        pushed := pushed + [Item(k, store[k])];
      } else {
        DistinctSnoc(missing, k);
        missing := missing + [k];
      }
      i := i + 1;
    }
    assert res[..i] == res;
  }

  lemma DistinctSnoc(s: seq<Key>, k: Key)
    ensures ToSet(s + [k]) == ToSet(s) + {k}
    ensures Distinct(s + [k]) <==> Distinct(s) && k !in ToSet(s)
  {
    if Distinct(s + [k]) {
      assert forall i :: 0 <= i < |s| ==> (s + [k])[i] == s[i];
      assert (s + [k])[|s|] == k;
    }
  }

  lemma NextKey(res: seq<Key>, i: nat)
    requires i < |res|
    ensures ToSet(res[..i + 1]) == ToSet(res[..i]) + {res[i]}
    ensures Distinct(res[..i + 1]) <==> Distinct(res[..i]) && res[i] !in ToSet(res[..i])
  {
    assert res[..i + 1] == res[..i] + [res[i]];
    DistinctSnoc(res[..i], res[i]);
  }

  // ---------- inserting and looking up ----------

  lemma TakeItem<V>(items: seq<Item<V>>, i: nat)
    requires i < |items|
    ensures items[..i + 1] == items[..i] + [items[i]]
    ensures forall item :: item in items[..i] ==> item in items
  {
  }

  lemma NotNew<V>(store: Store<V>, items: seq<Item<V>>, i: nat)
    requires i < |items| && items[i].key in store.Keys + Keys(items[..i])
    ensures !(NoRepeats(items) && Keys(items) !! store.Keys)
  {
    if items[i].key in Keys(items[..i]) {
      var j :| 0 <= j < i && items[..i][j].key == items[i].key;
      assert items[j].key == items[i].key;
    } else {
      assert items[i].key in Keys(items);
    }
  }

  /** Insert items that must all be new; stop at the first that is not. */
  method InsertNew<V>(store: Store<V>, items: seq<Item<V>>) returns (ok: bool, now: Store<V>)
    ensures ok <==> NoRepeats(items) && Keys(items) !! store.Keys
    ensures Grown(store, items, now) && (ok ==> now.Keys == store.Keys + Keys(items))
  {
    now := store;
    var i := 0;
    while i < |items|
      invariant i <= |items|
      invariant NoRepeats(items[..i]) && Keys(items[..i]) !! store.Keys
      invariant Grown(store, items, now) && now.Keys == store.Keys + Keys(items[..i])
    {
      TakeItem(items, i);
      if items[i].key in now {
        NotNew(store, items, i);
        return false, now;
      }
      KeysSnoc(items[..i], items[i]);
      now := now[items[i].key := items[i].value];
      i := i + 1;
    }
    assert items[..i] == items;
    ok := true;
  }

  /** Insert items, keeping what is there. */
  method InsertAll<V>(store: Store<V>, items: seq<Item<V>>) returns (now: Store<V>)
    ensures Grown(store, items, now) && now.Keys == store.Keys + Keys(items)
  {
    now := store;
    var i := 0;
    while i < |items|
      invariant i <= |items| && Grown(store, items, now) && now.Keys == store.Keys + Keys(items[..i])
    {
      TakeItem(items, i);
      KeysSnoc(items[..i], items[i]);
      if items[i].key !in now {
        now := now[items[i].key := items[i].value];
      }
      i := i + 1;
    }
    assert items[..i] == items;
  }

  /** Look up keys that must all be there; stop at the first that is not. */
  method LookUpAll<V>(store: Store<V>, keys: seq<Key>) returns (ok: bool, items: seq<Item<V>>)
    ensures ok <==> ToSet(keys) <= store.Keys
    ensures From(items, store) && (ok ==> Keys(items) == ToSet(keys) && (NoRepeats(items) <==> Distinct(keys)))
  {
    items := [];
    var i := 0;
    while i < |keys|
      invariant i <= |keys| && ToSet(keys[..i]) <= store.Keys
      invariant From(items, store) && Keys(items) == ToSet(keys[..i]) && (NoRepeats(items) <==> Distinct(keys[..i]))
    {
      NextKey(keys, i);
      if keys[i] !in store {
        assert keys[i] in ToSet(keys);
        return false, items;
      }
      KeysSnoc(items, Item(keys[i], store[keys[i]]));
      items := items + [Item(keys[i], store[keys[i]])];
      i := i + 1;
    }
    assert keys[..i] == keys;
    ok := true;
  }

  // ---------- the server ----------

  /** What the handler of a sketch request does with pushed and missing keys: duplicates and unknown keys are
      errors; what was inserted before an error stays. */
  method Serve<V>(server: Store<V>, pushed: seq<Item<V>>, missing: seq<Key>)
    returns (r: Result<seq<Item<V>>>, now: Store<V>)
    ensures r == Err(AlreadyExists) <==> !(NoRepeats(pushed) && Keys(pushed) !! server.Keys)
    ensures r != Err(AlreadyExists)
            ==> now.Keys == server.Keys + Keys(pushed) && (r.Ok? <==> ToSet(missing) <= now.Keys)
    ensures r.Err? ==> r == Err(AlreadyExists) || r == Err(NotFound)
    ensures r.Ok? ==> Keys(r.value) == ToSet(missing) && From(r.value, now)
                      && (NoRepeats(r.value) <==> Distinct(missing))
    ensures Grown(server, pushed, now)
  {
    var ok;
    ok, now := InsertNew(server, pushed);
    if !ok {
      return Err(AlreadyExists), now;
    }
    var items;
    ok, items := LookUpAll(now, missing);
    r := if ok then Ok(items) else Err(NotFound);
  }

  /** Synchronize: pushes never fail here, pulls do if a key is unknown. */
  method Synchronize<V>(server: Store<V>, pushes: seq<Item<V>>, pulls: seq<Key>)
    returns (r: Result<seq<Item<V>>>, now: Store<V>)
    ensures Grown(server, pushes, now) && now.Keys == server.Keys + Keys(pushes)
    ensures if ToSet(pulls) <= now.Keys then r.Ok? else r == Err(NotFound)
    ensures r.Ok? ==> Keys(r.value) == ToSet(pulls) && From(r.value, now) && (NoRepeats(r.value) <==> Distinct(pulls))
  {
    now := InsertAll(server, pushes);
    var ok, items := LookUpAll(now, pulls);
    r := if ok then Ok(items) else Err(NotFound);
  }
}
