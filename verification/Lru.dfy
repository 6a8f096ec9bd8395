/**
 The class `Cache`: a map into a list of nodes, proved against the plain recency list.
 */
module Lru {
  import opened LruSpec

  class Node<K, V> {
    const key: K
    var value: V

    constructor (k: K, v: V)
      ensures key == k && value == v
    {
      key, value := k, v;
    }
  }

  datatype Found<V> = Missing | Hit(value: V)

  ghost function Members<T>(s: seq<T>): set<T> {
    set x | x in s
  }

  lemma {:induction false} DistinctSize<T>(s: seq<T>)
    requires forall i, j :: 0 <= i < j < |s| ==> s[i] != s[j]
    ensures |Members(s)| == |s|
  {
    if s == [] {
    } else {
      var init, last := s[..|s| - 1], s[|s| - 1];
      DistinctSize(init);
      assert s == init + [last];
      assert Members(s) == Members(init) + {last};
    }
  }

  /** The map and the list hold the same nodes, under their keys, each once. */
  ghost predicate Linked<K, V>(keys: seq<Node<K, V>>, cache: map<K, Node<K, V>>) {
    && (forall i, j :: 0 <= i < j < |keys| ==> keys[i].key != keys[j].key)
    && (forall i :: 0 <= i < |keys| ==> keys[i].key in cache && cache[keys[i].key] == keys[i])
    && (forall k :: k in cache ==> cache[k] in keys && cache[k].key == k)
  }

  function MovedToFront<T>(s: seq<T>, at: nat): seq<T>
    requires at < |s|
  {
    [s[at]] + (s[..at] + s[at + 1..])
  }

  function Dropped<T>(s: seq<T>, at: nat): seq<T>
    requires at < |s|
  {
    s[..at] + s[at + 1..]
  }

  lemma DroppedMembers<T>(s: seq<T>, at: nat, x: T)
    requires at < |s|
    ensures x in s <==> x in Dropped(s, at) || x == s[at]
  {
    assert s == s[..at] + [s[at]] + s[at + 1..];
  }

  lemma LinkedMoved<K, V>(keys: seq<Node<K, V>>, cache: map<K, Node<K, V>>, at: nat)
    requires Linked(keys, cache) && at < |keys|
    ensures Linked(MovedToFront(keys, at), cache)
    ensures forall n :: n in MovedToFront(keys, at) <==> n in keys
  {
    forall n: Node<K, V>
      ensures n in MovedToFront(keys, at) <==> n in keys
    {
      DroppedMembers(keys, at, n);
    }
  }

  lemma LinkedDropped<K, V>(keys: seq<Node<K, V>>, cache: map<K, Node<K, V>>, at: nat)
    requires Linked(keys, cache) && at < |keys|
    ensures Linked(Dropped(keys, at), cache - {keys[at].key})
    ensures forall n :: n in Dropped(keys, at) ==> n in keys
  {
    forall n: Node<K, V>
      ensures n in keys <==> n in Dropped(keys, at) || n == keys[at]
    {
      DroppedMembers(keys, at, n);
    }
  }

  lemma LinkedPushed<K, V>(keys: seq<Node<K, V>>, cache: map<K, Node<K, V>>, node: Node<K, V>)
    requires Linked(keys, cache) && node.key !in cache
    ensures Linked([node] + keys, cache[node.key := node])
  {
  }

  ghost function Entries<K, V>(keys: seq<Node<K, V>>): (list: seq<Entry<K, V>>)
    reads keys
    ensures |list| == |keys|
  {
    seq(|keys|, i requires 0 <= i < |keys| reads keys => Entry(keys[i].key, keys[i].value))
  }

  lemma EntriesAt<K, V>(keys: seq<Node<K, V>>, cache: map<K, Node<K, V>>, at: nat)
    requires Linked(keys, cache) && at < |keys|
    ensures Has(Entries(keys), keys[at].key) && IndexOf(Entries(keys), keys[at].key) == at
  {
    assert Entries(keys)[at].key == keys[at].key;
    var i := IndexOf(Entries(keys), keys[at].key);
    assert keys[i].key == keys[at].key;
  }

  lemma EntriesDropped<K, V>(keys: seq<Node<K, V>>, at: nat)
    requires at < |keys|
    ensures Entries(Dropped(keys, at)) == Dropped(Entries(keys), at)
    ensures Entries(MovedToFront(keys, at)) == MovedToFront(Entries(keys), at)
  {
  }

  lemma EntriesMoved<K, V>(keys: seq<Node<K, V>>, cache: map<K, Node<K, V>>, at: nat)
    requires Linked(keys, cache) && at < |keys|
    ensures Entries(MovedToFront(keys, at)) == Used(Entries(keys), keys[at].key)
    ensures Entries(Dropped(keys, at)) == Without(Entries(keys), keys[at].key)
    ensures Has(Entries(keys), keys[at].key) && IndexOf(Entries(keys), keys[at].key) == at
  {
    EntriesAt(keys, cache, at);
    EntriesDropped(keys, at);
  }

  lemma EntriesPushed<K, V>(keys: seq<Node<K, V>>, node: Node<K, V>)
    ensures Entries([node] + keys) == [Entry(node.key, node.value)] + Entries(keys)
  {
  }

  lemma EntriesPrefix<K, V>(keys: seq<Node<K, V>>, n: nat)
    requires n <= |keys|
    ensures Entries(keys[..n]) == Entries(keys)[..n]
  {
  }

  /** Changing the value of a key before using it is inserting it. */
  lemma UsedAfterUpdate<K, V>(was: seq<Entry<K, V>>, now: seq<Entry<K, V>>, k: K, v: V, at: nat)
    requires at < |was| == |now| && now == was[at := Entry(k, v)]
    requires Has(was, k) && IndexOf(was, k) == at && Has(now, k) && IndexOf(now, k) == at
    ensures Used(now, k) == [Entry(k, v)] + Without(was, k)
  {
    assert now[..at] == was[..at] && now[at + 1..] == was[at + 1..];
  }

  class Cache<K(==), V> {
    const lim: Limits
    var cache: map<K, Node<K, V>>     // cache_
    var keys: seq<Node<K, V>>         // keys_, most recently used first

    ghost predicate Valid()
      reads this
    {
      Linked(keys, cache)
    }

    ghost function Contents(): (list: seq<Entry<K, V>>)
      reads this, keys
      ensures |list| == |keys|
    {
      Entries(keys)
    }

    constructor (maxSize: nat, elasticity: nat)
      ensures Valid() && lim == Limits(maxSize, elasticity) && Contents() == []
    {
      lim := Limits(maxSize, elasticity);
      cache, keys := map[], [];
    }

    lemma InContents(k: K)
      requires Valid()
      ensures k in cache <==> Has(Contents(), k)
      ensures k in cache ==> keys[IndexOf(Contents(), k)] == cache[k]
    {
      if k in cache {
        var i :| 0 <= i < |keys| && keys[i] == cache[k];
        assert Contents()[i].key == k;
      }
      if Has(Contents(), k) {
        assert keys[IndexOf(Contents(), k)].key == k;
      }
    }

    /** Where a node is in the list. */
    method Position(node: Node<K, V>) returns (at: nat)
      requires node in keys
      ensures at < |keys| && keys[at] == node
    {
      at := 0;
      while keys[at] != node
        invariant at < |keys| && node in keys[at..]
        decreases |keys| - at
      {
        at := at + 1;
      }
    }

    /** keys_.splice(keys_.begin(), keys_, it). */
    method MoveToFront(node: Node<K, V>)
      requires Valid() && node in keys
      modifies this`keys
      ensures Valid() && Has(old(Contents()), node.key)
      ensures Contents() == Used(old(Contents()), node.key)
      ensures forall n :: n in keys <==> n in old(keys)
    {
      var at := Position(node);
      EntriesMoved(keys, cache, at);
      LinkedMoved(keys, cache, at);
      keys := MovedToFront(keys, at);
    }

    /** The first branch of insert: a new value for a key that is there. */
    method Renew(node: Node<K, V>, v: V)
      requires Valid() && node in keys
      modifies this`keys, node
      ensures Valid() && Contents() == [Entry(node.key, v)] + Without(old(Contents()), node.key)
      ensures Has(old(Contents()), node.key)
      ensures forall n :: n in keys <==> n in old(keys)
    {
      ghost var was := Contents();
      var at := Position(node);
      EntriesMoved(keys, cache, at);
      node.value := v;
      EntriesMoved(keys, cache, at);
      assert Contents() == was[at := Entry(node.key, v)] by {
        forall i | 0 <= i < |keys| && i != at
          ensures keys[i] != node
        {
          assert keys[i].key != keys[at].key;
        }
      }
      UsedAfterUpdate(was, Contents(), node.key, v, at);
      MoveToFront(node);
    }

    method Insert(k: K, v: V)
      requires Valid()
      modifies this, keys
      ensures Valid() && Contents() == Inserted(lim, old(Contents()), k, v)
      ensures forall n :: n in keys ==> n in old(keys) || fresh(n)
    {
      InContents(k);
      if k in cache {
        Renew(cache[k], v);
      } else {
        Push(k, v);
        var count := Prune();
      }
    }

    /** keys_.emplace_front and the map entry. */
    method Push(k: K, v: V)
      requires Valid() && k !in cache
      modifies this`keys, this`cache
      ensures Valid() && Contents() == [Entry(k, v)] + old(Contents())
      ensures forall n :: n in keys ==> n in old(keys) || fresh(n)
    {
      var node := new Node(k, v);
      LinkedPushed(keys, cache, node);
      EntriesPushed(keys, node);
      keys := [node] + keys;
      cache := cache[k := node];
    }

    ghost function KeyList(): seq<K>
      reads this
    {
      seq(|keys|, i requires 0 <= i < |keys| reads this => keys[i].key)
    }

    /** The map has as many keys as the list. */
    lemma SameSize()
      requires Valid()
      ensures |cache| == |keys|
    {
      DistinctSize(KeyList());
      forall k: K
        ensures k in cache <==> k in Members(KeyList())
      {
        if k in cache {
          var i :| 0 <= i < |keys| && keys[i] == cache[k];
          assert KeyList()[i] == k;
        }
      }
      assert cache.Keys == Members(KeyList());
    }

    method DropLast()
      requires Valid() && keys != []
      modifies this`cache, this`keys
      ensures Valid() && keys == old(keys)[..|old(keys)| - 1]
    {
      var last := keys[|keys| - 1];
      LinkedDropped(keys, cache, |keys| - 1);
      assert Dropped(keys, |keys| - 1) == keys[..|keys| - 1];
      cache := cache - {last.key};
      keys := keys[..|keys| - 1];
    }

    method Prune() returns (count: nat)
      requires Valid()
      modifies this`cache, this`keys
      ensures Valid() && Contents() == Pruned(lim, old(Contents())) && count == |old(keys)| - |keys|
      ensures forall n :: n in keys ==> n in old(keys)
    {
      SameSize();
      if lim.maxSize == 0 || |cache| < lim.maxSize + lim.elasticity {
        return 0;
      }
      EntriesPrefix(keys, if |keys| <= lim.maxSize then |keys| else lim.maxSize);
      WholePrefix(Entries(keys));
      count := PopOverflow();
    }

    lemma WholePrefix<T>(s: seq<T>)
      ensures s[..|s|] == s
    {
    }

    lemma TakeTake<T>(s: seq<T>, i: nat, j: nat)
      requires j <= i <= |s|
      ensures s[..i][..j] == s[..j]
    {
    }

    /** The loop of prune. */
    method PopOverflow() returns (count: nat)
      requires Valid()
      modifies this`cache, this`keys
      ensures Valid() && count == |old(keys)| - |keys|
      ensures keys == old(keys)[..if |old(keys)| <= lim.maxSize then |old(keys)| else lim.maxSize]
    {
      count := 0;
      ghost var all := keys;
      SameSize();
      while |cache| > lim.maxSize
        invariant Valid() && |cache| == |keys| && count + |keys| == |all| && keys == all[..|keys|]
        invariant |keys| == |all| || lim.maxSize <= |keys|
      {
        ghost var before := keys;
        DropLast();
        SameSize();
        TakeTake(all, |before|, |keys|);
        count := count + 1;
      }
    }

    method TryGet(k: K) returns (r: Found<V>)
      requires Valid()
      modifies this`keys
      ensures Valid() && Contents() == Used(old(Contents()), k)
      ensures r == if Has(old(Contents()), k) then Hit(old(Contents())[IndexOf(old(Contents()), k)].value) else Missing
      ensures forall n :: n in keys <==> n in old(keys)
    {
      InContents(k);
      if k !in cache {
        return Missing;
      }
      MoveToFront(cache[k]);
      return Hit(cache[k].value);
    }

    method Remove(k: K) returns (r: bool)
      requires Valid()
      modifies this`cache, this`keys
      ensures Valid() && Contents() == Without(old(Contents()), k) && r == Has(old(Contents()), k)
      ensures forall n :: n in keys ==> n in old(keys)
    {
      InContents(k);
      if k !in cache {
        return false;
      }
      var at := Position(cache[k]);
      EntriesMoved(keys, cache, at);
      LinkedDropped(keys, cache, at);
      keys := Dropped(keys, at);
      cache := cache - {k};
      return true;
    }

    method Size() returns (n: nat)
      requires Valid()
      ensures n == |Contents()|
    {
      SameSize();
      n := |cache|;
    }
  }

  /** One operation. */
  method ApplyOp<K(==), V>(c: Cache<K, V>, op: Op<K, V>)
    requires c.Valid()
    modifies c, c.keys
    ensures c.Valid() && c.Contents() == Apply(c.lim, old(c.Contents()), op)
    ensures forall n :: n in c.keys ==> n in old(c.keys) || fresh(n)
  {
    match op {
      case Insert(k, v) => c.Insert(k, v);
      case Read(k) => var r := c.TryGet(k);
      case Remove(k) => var b := c.Remove(k);
    }
  }

  /** Any operations on a new cache: it holds what the recency list holds. */
  method RunOps<K(==), V>(maxSize: nat, elasticity: nat, ops: seq<Op<K, V>>) returns (c: Cache<K, V>)
    ensures c.Valid() && c.Contents() == Run(Limits(maxSize, elasticity), ops)
    ensures Faithful(Limits(maxSize, elasticity), ops, c.Contents())
  {
    c := new Cache(maxSize, elasticity);
    var i := 0;
    while i < |ops|
      invariant i <= |ops| && fresh(c) && c.Valid() && c.lim == Limits(maxSize, elasticity)
      invariant forall n :: n in c.keys ==> fresh(n)
      invariant c.Contents() == Run(c.lim, ops[..i])
    {
      assert ops[..i + 1][..i] == ops[..i];
      ApplyOp(c, ops[i]);
      i := i + 1;
    }
    assert ops[..i] == ops;
    RunFaithful(Limits(maxSize, elasticity), ops);
  }
}
