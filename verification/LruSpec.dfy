/**
 A least-recently-used cache as a list of entries, most recent first, and what holds after any run.
 */
module LruSpec {

  datatype Entry<K, V> = Entry(key: K, value: V)

  datatype Limits = Limits(maxSize: nat, elasticity: nat)

  ghost predicate Has<K, V>(list: seq<Entry<K, V>>, k: K) {
    exists i :: 0 <= i < |list| && list[i].key == k
  }

  ghost predicate DistinctKeys<K, V>(list: seq<Entry<K, V>>) {
    forall i, j :: 0 <= i < j < |list| ==> list[i].key != list[j].key
  }

  ghost function IndexOf<K, V>(list: seq<Entry<K, V>>, k: K): (i: nat)
    requires Has(list, k)
    ensures i < |list| && list[i].key == k
  {
    var i: nat :| i < |list| && list[i].key == k;
    i
  }

  ghost function Without<K, V>(list: seq<Entry<K, V>>, k: K): seq<Entry<K, V>> {
    if Has(list, k) then list[..IndexOf(list, k)] + list[IndexOf(list, k) + 1..] else list
  }

  /** prune: nothing below the hard limit, and back to the soft limit from there on. */
  function Pruned<K, V>(lim: Limits, list: seq<Entry<K, V>>): seq<Entry<K, V>> {
    if lim.maxSize == 0 || |list| < lim.maxSize + lim.elasticity || |list| <= lim.maxSize then list
    else list[..lim.maxSize]
  }

  ghost function Inserted<K, V>(lim: Limits, list: seq<Entry<K, V>>, k: K, v: V): seq<Entry<K, V>> {
    if Has(list, k) then [Entry(k, v)] + Without(list, k) else Pruned(lim, [Entry(k, v)] + list)
  }

  ghost function Used<K, V>(list: seq<Entry<K, V>>, k: K): seq<Entry<K, V>> {
    if Has(list, k) then [list[IndexOf(list, k)]] + Without(list, k) else list
  }

  // ---------- runs ----------

  datatype Op<K, V> = Insert(key: K, value: V) | Read(key: K) | Remove(key: K)

  ghost function Apply<K, V>(lim: Limits, list: seq<Entry<K, V>>, op: Op<K, V>): seq<Entry<K, V>> {
    match op
    case Insert(k, v) => Inserted(lim, list, k, v)
    case Read(k) => Used(list, k)
    case Remove(k) => Without(list, k)
  }

  ghost function Run<K, V>(lim: Limits, ops: seq<Op<K, V>>): seq<Entry<K, V>> {
    if ops == [] then [] else Apply(lim, Run(lim, ops[..|ops| - 1]), ops[|ops| - 1])
  }

  /** When a key was last inserted or read: the number of operations up to then. */
  ghost function LastUse<K, V>(ops: seq<Op<K, V>>, k: K): nat {
    if ops == [] then 0
    else if ops[|ops| - 1].key == k && !ops[|ops| - 1].Remove? then |ops|
    else LastUse(ops[..|ops| - 1], k)
  }

  /** The value last inserted for a key. */
  ghost predicate LastInserted<K, V>(ops: seq<Op<K, V>>, k: K, v: V) {
    ops != [] &&
    (var last := ops[|ops| - 1];
     if last.Insert? && last.key == k then last.value == v else LastInserted(ops[..|ops| - 1], k, v))
  }

  ghost predicate ByRecency<K, V>(ops: seq<Op<K, V>>, list: seq<Entry<K, V>>) {
    forall i, j :: 0 <= i < j < |list| ==> LastUse(ops, list[i].key) > LastUse(ops, list[j].key)
  }

  ghost predicate Current<K, V>(ops: seq<Op<K, V>>, list: seq<Entry<K, V>>) {
    forall i :: 0 <= i < |list| ==> LastInserted(ops, list[i].key, list[i].value)
  }

  function Bound(lim: Limits): nat {
    if lim.elasticity == 0 then lim.maxSize else lim.maxSize + lim.elasticity - 1
  }

  lemma {:induction false} LastUseBound<K, V>(ops: seq<Op<K, V>>, k: K)
    ensures LastUse(ops, k) <= |ops|
  {
    if ops == [] {
    } else {
      LastUseBound(ops[..|ops| - 1], k);
    }
  }

  /** What the list is after any operations. */
  ghost predicate Faithful<K, V>(lim: Limits, ops: seq<Op<K, V>>, list: seq<Entry<K, V>>) {
    && DistinctKeys(list) && ByRecency(ops, list) && Current(ops, list)
    && (lim.maxSize > 0 ==> |list| <= Bound(lim))
  }

  lemma DropAt<K, V>(lim: Limits, ops: seq<Op<K, V>>, list: seq<Entry<K, V>>, at: nat)
    requires Faithful(lim, ops, list) && at < |list|
    ensures Faithful(lim, ops, list[..at] + list[at + 1..])
    ensures !Has(list[..at] + list[at + 1..], list[at].key)
  {
  }

  lemma WithoutFaithful<K, V>(lim: Limits, ops: seq<Op<K, V>>, list: seq<Entry<K, V>>, k: K)
    requires Faithful(lim, ops, list)
    ensures Faithful(lim, ops, Without(list, k)) && !Has(Without(list, k), k)
  {
    if Has(list, k) {
      DropAt(lim, ops, list, IndexOf(list, k));
    }
  }

  /** An operation on one key says nothing about the others. */
  lemma OtherKey<K, V>(ops: seq<Op<K, V>>, op: Op<K, V>, k: K)
    requires op.key != k
    ensures LastUse(ops + [op], k) == LastUse(ops, k)
            && forall v :: LastInserted(ops + [op], k, v) == LastInserted(ops, k, v)
  {
    assert (ops + [op])[..|ops|] == ops;
  }

  lemma SameKeyUsed<K, V>(ops: seq<Op<K, V>>, op: Op<K, V>)
    ensures !op.Remove? ==> LastUse(ops + [op], op.key) == |ops| + 1
    ensures forall v ::
              LastInserted(ops + [op], op.key, v) == if op.Insert? then op.value == v else LastInserted(ops, op.key, v)
  {
    assert (ops + [op])[..|ops|] == ops;
  }

  lemma OthersFaithful<K, V>(lim: Limits, ops: seq<Op<K, V>>, op: Op<K, V>, list: seq<Entry<K, V>>)
    requires Faithful(lim, ops, list) && !Has(list, op.key)
    ensures Faithful(lim, ops + [op], list)
  {
    forall i | 0 <= i < |list|
      ensures LastUse(ops + [op], list[i].key) == LastUse(ops, list[i].key)
              && LastInserted(ops + [op], list[i].key, list[i].value)
    {
      OtherKey(ops, op, list[i].key);
    }
  }

  /** A used key goes to the front. */
  lemma FrontOrdered<K, V>(lim: Limits, ops: seq<Op<K, V>>, op: Op<K, V>, list: seq<Entry<K, V>>, e: Entry<K, V>)
    requires Faithful(lim, ops, list) && !Has(list, e.key) && op.key == e.key && !op.Remove?
    requires if op.Insert? then op.value == e.value else LastInserted(ops, e.key, e.value)
    ensures var now := [e] + list; DistinctKeys(now) && ByRecency(ops + [op], now) && Current(ops + [op], now)
  {
    OthersFaithful(lim, ops, op, list);
    SameKeyUsed(ops, op);
    forall i | 0 <= i < |list|
      ensures LastUse(ops + [op], list[i].key) <= |ops|
    {
      OtherKey(ops, op, list[i].key);
      LastUseBound(ops, list[i].key);
    }
  }

  lemma PrefixFaithful<K, V>(ops: seq<Op<K, V>>, list: seq<Entry<K, V>>, n: nat)
    requires n <= |list| && DistinctKeys(list) && ByRecency(ops, list) && Current(ops, list)
    ensures DistinctKeys(list[..n]) && ByRecency(ops, list[..n]) && Current(ops, list[..n])
  {
  }

  /** One operation keeps the list faithful to the history. */
  lemma ApplyFaithful<K, V>(lim: Limits, ops: seq<Op<K, V>>, list: seq<Entry<K, V>>, op: Op<K, V>)
    requires Faithful(lim, ops, list)
    ensures Faithful(lim, ops + [op], Apply(lim, list, op))
  {
    var rest := Without(list, op.key);
    WithoutFaithful(lim, ops, list, op.key);
    match op
    case Insert(k, v) =>
      FrontOrdered(lim, ops, op, rest, Entry(k, v));
      if !Has(list, k) {
        PrefixFaithful(ops + [op], [Entry(k, v)] + list, |Pruned(lim, [Entry(k, v)] + list)|);
        assert Pruned(lim, [Entry(k, v)] + list) == ([Entry(k, v)] + list)[..|Pruned(lim, [Entry(k, v)] + list)|];
      }
    case Read(k) =>
      if Has(list, k) {
        FrontOrdered(lim, ops, op, rest, list[IndexOf(list, k)]);
      } else {
        OthersFaithful(lim, ops, op, list);
      }
    case Remove(k) =>
      OthersFaithful(lim, ops, op, rest);
  }

  /** After any run: no key twice, most recently used first, every value the one inserted last, and the size
      below the hard limit. */
  lemma {:induction false} RunFaithful<K, V>(lim: Limits, ops: seq<Op<K, V>>)
    ensures Faithful(lim, ops, Run(lim, ops))
  {
    if ops == [] {
    } else {
      var init, last := ops[..|ops| - 1], ops[|ops| - 1];
      RunFaithful(lim, init);
      ApplyFaithful(lim, init, Run(lim, init), last);
      assert ops == init + [last];
    }
  }

  ghost function Keys<K, V>(list: seq<Entry<K, V>>): set<K> {
    set i | 0 <= i < |list| :: list[i].key
  }

  lemma KeysHas<K, V>(list: seq<Entry<K, V>>, k: K)
    ensures k in Keys(list) <==> Has(list, k)
  {
  }

  lemma KeysOne<K, V>(e: Entry<K, V>)
    ensures Keys([e]) == {e.key}
  {
    assert [e][0].key == e.key;
  }

  lemma {:induction false} KeysCount<K, V>(list: seq<Entry<K, V>>)
    requires DistinctKeys(list)
    ensures |Keys(list)| == |list|
  {
    if list == [] {
    } else {
      var init, last := list[..|list| - 1], list[|list| - 1];
      KeysCount(init);
      KeysSplit(init, [last]);
      assert list == init + [last];
      KeysOne(last);
      KeysHas(init, last.key);
    }
  }

  lemma KeysSplit<K, V>(s: seq<Entry<K, V>>, t: seq<Entry<K, V>>)
    ensures Keys(s + t) == Keys(s) + Keys(t)
  {
    forall k: K
      ensures k in Keys(s + t) <==> k in Keys(s) + Keys(t)
    {
      if k in Keys(s) {
        var i :| 0 <= i < |s| && s[i].key == k;
        assert (s + t)[i].key == k;
      } else if k in Keys(t) {
        var i :| 0 <= i < |t| && t[i].key == k;
        assert (s + t)[|s| + i].key == k;
      }
    }
  }

  lemma KeysWithout<K, V>(list: seq<Entry<K, V>>, k: K)
    requires DistinctKeys(list)
    ensures Keys(Without(list, k)) == Keys(list) - {k}
  {
    KeysHas(list, k);
    if Has(list, k) {
      var at := IndexOf(list, k);
      assert list == list[..at] + ([list[at]] + list[at + 1..]);
      KeysSplit(list[..at], [list[at]] + list[at + 1..]);
      KeysSplit([list[at]], list[at + 1..]);
      KeysSplit(list[..at], list[at + 1..]);
      KeysOne(list[at]);
    }
  }

  lemma KeysUsed<K, V>(list: seq<Entry<K, V>>, k: K)
    requires DistinctKeys(list)
    ensures Keys(Used(list, k)) == Keys(list)
  {
    KeysHas(list, k);
    KeysWithout(list, k);
    if Has(list, k) {
      KeysSplit([list[IndexOf(list, k)]], Without(list, k));
      KeysOne(list[IndexOf(list, k)]);
    }
  }

  lemma KeysInserted<K, V>(lim: Limits, list: seq<Entry<K, V>>, k: K, v: V)
    requires DistinctKeys(list)
    ensures var all, now := Keys(list) + {k}, Keys(Inserted(lim, list, k, v));
            if lim.maxSize == 0 || k in Keys(list) || |all| < lim.maxSize + lim.elasticity then now == all
            else now <= all && |now| == lim.maxSize && k in now
  {
    KeysHas(list, k);
    KeysOne(Entry(k, v));
    if Has(list, k) {
      KeysWithout(list, k);
      KeysSplit([Entry(k, v)], Without(list, k));
    } else {
      PrunedKeys(lim, [Entry(k, v)] + list);
      KeysSplit([Entry(k, v)], list);
    }
  }

  /** Which keys each operation keeps: reading keeps all, removing takes out one. Inserting keeps all if the key was
      there or fewer than maxSize + elasticity keys result, and otherwise exactly maxSize of them. */
  lemma KeysAfter<K, V>(lim: Limits, list: seq<Entry<K, V>>, op: Op<K, V>)
    requires DistinctKeys(list)
    ensures op.Read? ==> Keys(Apply(lim, list, op)) == Keys(list)
    ensures op.Remove? ==> Keys(Apply(lim, list, op)) == Keys(list) - {op.key}
    ensures op.Insert? ==>
              var all, now := Keys(list) + {op.key}, Keys(Apply(lim, list, op));
              if lim.maxSize == 0 || op.key in Keys(list) || |all| < lim.maxSize + lim.elasticity then now == all
              else now <= all && |now| == lim.maxSize && op.key in now
  {
    match op
    case Read(k) => KeysUsed(list, k);
    case Remove(k) => KeysWithout(list, k);
    case Insert(k, v) => KeysInserted(lim, list, k, v);
  }

  lemma PrunedKeys<K, V>(lim: Limits, all: seq<Entry<K, V>>)
    requires DistinctKeys(all) && all != []
    ensures if lim.maxSize == 0 || |Keys(all)| < lim.maxSize + lim.elasticity then Pruned(lim, all) == all
            else Keys(Pruned(lim, all)) <= Keys(all) && |Keys(Pruned(lim, all))| == lim.maxSize
                 && all[0].key in Keys(Pruned(lim, all))
  {
    KeysCount(all);
    KeysCount(Pruned(lim, all));
    KeysSplit(Pruned(lim, all), all[|Pruned(lim, all)|..]);
    assert all == Pruned(lim, all) + all[|Pruned(lim, all)|..];
    if Pruned(lim, all) != [] {
      assert Pruned(lim, all)[0] == all[0];
    }
  }

  ghost function Inserts(n: nat): seq<Op<nat, nat>> {
    if n == 0 then [] else Inserts(n - 1) + [Insert(n - 1, 0)]
  }

  ghost function FirstKeys(n: nat): (r: set<nat>)
    ensures |r| == n && forall k: nat :: k in r <==> k < n
  {
    if n == 0 then {} else FirstKeys(n - 1) + {n - 1}
  }

  lemma SameSize<T>(a: set<T>, b: set<T>)
    requires a <= b && |a| == |b|
    ensures a == b
  {
    assert b == a + (b - a);
    assert |a + (b - a)| == |a| + |b - a|;
  }

  lemma InsertNext(lim: Limits, list: seq<Entry<nat, nat>>, n: nat)
    requires 0 < lim.maxSize && n + 1 <= Bound(lim) && DistinctKeys(list) && Keys(list) == FirstKeys(n)
    ensures Keys(Inserted(lim, list, n, 0)) == FirstKeys(n + 1)
  {
    KeysInserted(lim, list, n, 0);
    assert Keys(list) + {n} == FirstKeys(n + 1);
    if n + 1 >= lim.maxSize + lim.elasticity {
      SameSize(Keys(Inserted(lim, list, n, 0)), FirstKeys(n + 1));
    }
  }

  lemma RunSnoc<K, V>(lim: Limits, ops: seq<Op<K, V>>, op: Op<K, V>)
    ensures Run(lim, ops + [op]) == Apply(lim, Run(lim, ops), op)
  {
    assert (ops + [op])[..|ops|] == ops;
  }

  lemma {:induction false} InsertedKeys(lim: Limits, n: nat)
    requires 0 < lim.maxSize && n <= Bound(lim)
    ensures Keys(Run(lim, Inserts(n))) == FirstKeys(n)
  {
    if n == 0 {
    } else {
      InsertedKeys(lim, n - 1);
      RunFaithful(lim, Inserts(n - 1));
      RunSnoc(lim, Inserts(n - 1), Insert(n - 1, 0));
      InsertNext(lim, Run(lim, Inserts(n - 1)), n - 1);
    }
  }

  /** The bound on the size is reached, by insertions alone. */
  lemma BoundIsReached(lim: Limits)
    requires 0 < lim.maxSize
    ensures |Run(lim, Inserts(Bound(lim)))| == Bound(lim)
  {
    InsertedKeys(lim, Bound(lim));
    RunFaithful(lim, Inserts(Bound(lim)));
    KeysCount(Run(lim, Inserts(Bound(lim))));
  }

  /** Every key that an insertion prunes was used less recently than every key that stays. */
  lemma PrunedAreOldest<K, V>(lim: Limits, ops: seq<Op<K, V>>, k: K, v: V, gone: K, kept: K)
    requires gone == k || Has(Run(lim, ops), gone)
    requires var after := Run(lim, ops + [Insert(k, v)]); !Has(after, gone) && Has(after, kept)
    ensures LastUse(ops + [Insert(k, v)], gone) < LastUse(ops + [Insert(k, v)], kept)
  {
    var op: Op<K, V> := Insert(k, v);
    var list := Run(lim, ops);
    assert (ops + [op])[..|ops|] == ops;
    RunFaithful(lim, ops);
    if Has(list, k) {
      WithoutKeepsOthers(list, k, gone);
    } else {
      var all := [Entry(k, v)] + list;
      FrontOrdered(lim, ops, op, list, Entry(k, v));
      var after := Pruned(lim, all);
      assert Has(all, gone) by {
        if gone == k {
          assert all[0].key == k;
        } else {
          assert all[IndexOf(list, gone) + 1].key == gone;
        }
      }
      var i, j := IndexOf(all, gone), IndexOf(after, kept);
      assert after == all[..|after|];
      InPrefix(all, |after|, i);
    }
  }

  lemma InPrefix<K, V>(list: seq<Entry<K, V>>, n: nat, i: nat)
    requires n <= |list| && i < |list|
    ensures i < n ==> Has(list[..n], list[i].key)
  {
    if i < n {
      assert list[..n][i] == list[i];
    }
  }

  lemma WithoutKeepsOthers<K, V>(list: seq<Entry<K, V>>, k: K, other: K)
    requires Has(list, k) && (other == k || Has(list, other))
    ensures forall v :: Has([Entry(k, v)] + Without(list, k), other)
  {
    forall v: V
      ensures Has([Entry(k, v)] + Without(list, k), other)
    {
      var now := [Entry(k, v)] + Without(list, k);
      if other == k {
        assert now[0].key == other;
      } else {
        var i, at := IndexOf(list, other), IndexOf(list, k);
        assert now[if i < at then i + 1 else i].key == other;
      }
    }
  }
}
