/**
 XOR sums and parity sets.

 The protocol never removes an element from a group: it XORs, and relies on pairs cancelling.
 What a list of keys means to it is therefore the set of keys that occur an odd number of times.
 */
module Parity {

  /** Elements that are in exactly one of the two sets. */
  function SymDiff<T>(s: set<T>, t: set<T>): set<T> {
    (s - t) + (t - s)
  }

  /** A machine word, given by the positions of its one bits. (The source's keys have 64 of them.) */
  datatype Key = Key(ones: set<nat>)

  const ZERO: Key := Key({})

  function Xor(a: Key, b: Key): Key {
    Key(SymDiff(a.ones, b.ones))
  }

  /** How often `x` occurs in a list. */
  function Times(s: seq<Key>, x: Key): nat {
    if s == [] then 0 else Times(s[..|s| - 1], x) + (if s[|s| - 1] == x then 1 else 0)
  }

  /** The keys of odd multiplicity. */
  ghost function Odd(s: seq<Key>): set<Key> {
    set x | x in s && Times(s, x) % 2 == 1
  }

  /** XOR of a list, in the order in which the loops accumulate it. */
  function XorSeq(s: seq<Key>): Key {
    if s == [] then ZERO else Xor(XorSeq(s[..|s| - 1]), s[|s| - 1])
  }

  ghost function XorSet(s: set<Key>): Key {
    if s == {} then ZERO else var x :| x in s; Xor(XorSet(s - {x}), x)
  }

  function Zeros(k: nat): (r: seq<Key>)
    ensures |r| == k && forall i :: 0 <= i < k ==> r[i] == ZERO
  {
    seq(k, _ => ZERO)
  }

  function Flatten<T>(ss: seq<seq<T>>): seq<T> {
    if ss == [] then [] else Flatten(ss[..|ss| - 1]) + ss[|ss| - 1]
  }

  /** The elements of `s` that satisfy `f`, in order. */
  function Filter<T>(s: seq<T>, f: T -> bool): seq<T> {
    if s == [] then []
    else
      var rest := Filter(s[..|s| - 1], f);
      if f(s[|s| - 1]) then rest + [s[|s| - 1]] else rest
  }

  ghost function BigSymDiff(ss: seq<set<Key>>): set<Key> {
    if ss == [] then {} else SymDiff(BigSymDiff(ss[..|ss| - 1]), ss[|ss| - 1])
  }

  /** How often `x` occurs in the lists, all together. */
  ghost function Occ(ss: seq<seq<Key>>, x: Key): nat {
    if ss == [] then 0 else Occ(ss[..|ss| - 1], x) + Times(ss[|ss| - 1], x)
  }

  ghost predicate Distinct<T(!new)>(s: seq<T>) {
    forall i, j :: 0 <= i < j < |s| ==> s[i] != s[j]
  }

  ghost function ToSet<T>(s: seq<T>): set<T> {
    set x | x in s
  }

  // ---------- sequences ----------

  lemma FlattenSnoc<T>(s: seq<seq<T>>, t: seq<T>)
    ensures Flatten(s + [t]) == Flatten(s) + t
  {
    assert (s + [t])[..|s|] == s;
  }

  lemma OccSnoc(ss: seq<seq<Key>>, s: seq<Key>, x: Key)
    ensures Occ(ss + [s], x) == Occ(ss, x) + Times(s, x)
  {
    assert (ss + [s])[..|ss|] == ss;
  }

  lemma OccConcat(s: seq<seq<Key>>, t: seq<seq<Key>>, x: Key)
    ensures Occ(s + t, x) == Occ(s, x) + Occ(t, x)
  {
    if t == [] {
      assert s + t == s;
    } else {
      var k := |t| - 1;
      assert (s + t)[..|s + t| - 1] == s + t[..k];
      OccConcat(s, t[..k], x);
    }
  }

  lemma OddFlatten(ss: seq<seq<Key>>, x: Key)
    ensures Times(Flatten(ss), x) == Occ(ss, x)
    ensures x in Odd(Flatten(ss)) <==> Occ(ss, x) % 2 == 1
  {
    if ss == [] {
    } else {
      var k := |ss| - 1;
      OddFlatten(ss[..k], x);
      TimesConcat(Flatten(ss[..k]), ss[k], x);
    }
    OddTimes(Flatten(ss), x);
  }

  lemma FilterMembers<T>(s: seq<T>, f: T -> bool)
    ensures forall x :: x in Filter(s, f) <==> x in s && f(x)
  {
    if s == [] {
    } else {
      FilterMembers(s[..|s| - 1], f);
      assert s == s[..|s| - 1] + [s[|s| - 1]];
    }
  }

  lemma FilterConcat<T>(s: seq<T>, t: seq<T>, f: T -> bool)
    ensures Filter(s + t, f) == Filter(s, f) + Filter(t, f)
  {
    if t == [] {
      assert s + t == s;
    } else {
      var k := |t| - 1;
      assert (s + t)[..|s + t| - 1] == s + t[..k];
      FilterConcat(s, t[..k], f);
    }
  }

  lemma FilterTimes(s: seq<Key>, f: Key -> bool, x: Key)
    ensures Times(Filter(s, f), x) == if f(x) then Times(s, x) else 0
  {
    if s == [] {
    } else {
      FilterTimes(s[..|s| - 1], f, x);
      TimesSnoc(Filter(s[..|s| - 1], f), s[|s| - 1], x);
    }
  }

  lemma {:induction false} SizeOfDistinct<T(!new)>(s: seq<T>)
    requires Distinct(s)
    ensures |ToSet(s)| == |s|
  {
    if s == [] {
    } else {
      var init, last := s[..|s| - 1], s[|s| - 1];
      SizeOfDistinct(init);
      assert ToSet(s) == ToSet(init) + {last};
    }
  }

  // ---------- counting ----------

  lemma TimesSnoc(s: seq<Key>, e: Key, x: Key)
    ensures Times(s + [e], x) == Times(s, x) + (if e == x then 1 else 0)
  {
    assert (s + [e])[..|s|] == s;
  }

  lemma TimesConcat(s: seq<Key>, t: seq<Key>, x: Key)
    ensures Times(s + t, x) == Times(s, x) + Times(t, x)
  {
    if t == [] {
      assert s + t == s;
    } else {
      var k := |t| - 1;
      assert (s + t)[..|s + t| - 1] == s + t[..k];
      TimesConcat(s, t[..k], x);
    }
  }

  lemma TimesMember(s: seq<Key>, x: Key)
    ensures x in s <==> Times(s, x) > 0
  {
  }

  lemma OddTimes(s: seq<Key>, x: Key)
    ensures x in Odd(s) <==> Times(s, x) % 2 == 1
  {
    TimesMember(s, x);
  }

  lemma TimesMultiset(s: seq<Key>, x: Key)
    ensures multiset(s)[x] == Times(s, x)
  {
    if s == [] {
    } else {
      assert s == s[..|s| - 1] + [s[|s| - 1]];
      TimesMultiset(s[..|s| - 1], x);
    }
  }

  // ---------- XOR ----------

  lemma XorCommutes(a: Key, b: Key)
    ensures Xor(a, b) == Xor(b, a)
  {
  }

  lemma XorAssociates(a: Key, b: Key, c: Key)
    ensures Xor(Xor(a, b), c) == Xor(a, Xor(b, c))
  {
    assert Xor(Xor(a, b), c).ones == Xor(a, Xor(b, c)).ones;
  }

  lemma XorCancels(a: Key, b: Key)
    ensures Xor(Xor(a, b), b) == a
  {
    assert Xor(Xor(a, b), b).ones == a.ones;
  }

  lemma XorZero(a: Key)
    ensures Xor(a, a) == ZERO && Xor(a, ZERO) == a
  {
    assert Xor(a, ZERO).ones == a.ones;
  }

  lemma XorLaws(a: Key, b: Key, c: Key)
    ensures Xor(a, b) == Xor(b, a)
    ensures Xor(Xor(a, b), c) == Xor(a, Xor(b, c))
    ensures Xor(Xor(a, b), b) == a && Xor(a, a) == ZERO && Xor(a, ZERO) == a
  {
    XorCommutes(a, b);
    XorAssociates(a, b, c);
    XorCancels(a, b);
    XorZero(a);
  }

  lemma XorSwap(a: Key, b: Key, c: Key)
    ensures Xor(Xor(a, b), c) == Xor(Xor(a, c), b)
  {
    XorAssociates(a, b, c);
    XorAssociates(a, c, b);
    XorCommutes(b, c);
  }

  lemma XorSeqConcat(s: seq<Key>, t: seq<Key>)
    ensures XorSeq(s + t) == Xor(XorSeq(s), XorSeq(t))
  {
    if t == [] {
      assert s + t == s;
    } else {
      var k := |t| - 1;
      assert (s + t)[..|s + t| - 1] == s + t[..k];
      XorSeqConcat(s, t[..k]);
      XorLaws(XorSeq(s), XorSeq(t[..k]), t[k]);
    }
  }

  lemma XorSeqSnoc(s: seq<Key>, x: Key)
    ensures XorSeq(s + [x]) == Xor(XorSeq(s), x)
  {
    assert (s + [x])[..|s|] == s;
  }

  /** A set may be XORed in any order. */
  lemma {:induction false} XorSetRemove(s: set<Key>, x: Key)
    requires x in s
    ensures XorSet(s) == Xor(XorSet(s - {x}), x)
    decreases |s|
  {
    var y :| y in s && XorSet(s) == Xor(XorSet(s - {y}), y);
    if y == x {
    } else {
      XorSetRemove(s - {y}, x);
      XorSetRemove(s - {x}, y);
      assert s - {y} - {x} == s - {x} - {y};
      XorSwap(XorSet(s - {x} - {y}), x, y);
    }
  }

  lemma XorSetToggle(s: set<Key>, x: Key)
    ensures XorSet(SymDiff(s, {x})) == Xor(XorSet(s), x)
  {
    if x in s {
      assert SymDiff(s, {x}) == s - {x};
      XorSetRemove(s, x);
      XorLaws(XorSet(s - {x}), x, x);
    } else {
      assert SymDiff(s, {x}) == s + {x};
      XorSetRemove(s + {x}, x);
      assert s + {x} - {x} == s;
    }
  }

  // ---------- parity ----------

  lemma OddConcat(s: seq<Key>, t: seq<Key>)
    ensures Odd(s + t) == SymDiff(Odd(s), Odd(t))
  {
    forall x: Key
      ensures x in Odd(s + t) <==> x in SymDiff(Odd(s), Odd(t))
    {
      TimesConcat(s, t, x);
      OddTimes(s, x);
      OddTimes(t, x);
      OddTimes(s + t, x);
    }
  }

  lemma OddSnoc(s: seq<Key>, x: Key)
    ensures Odd(s + [x]) == SymDiff(Odd(s), {x})
  {
    OddConcat(s, [x]);
    assert Odd([x]) == {x} by {
      TimesSnoc([], x, x);
    }
  }

  /** A list of distinct keys is its own parity set. */
  lemma OddDistinct(s: seq<Key>)
    requires Distinct(s)
    ensures Odd(s) == set x | x in s
  {
    if s == [] {
    } else {
      var k := |s| - 1;
      OddDistinct(s[..k]);
      OddSnoc(s[..k], s[k]);
      assert s == s[..k] + [s[k]];
    }
  }

  /** The XOR of a list depends only on its parity set. */
  lemma {:induction false} XorOdd(s: seq<Key>)
    ensures XorSeq(s) == XorSet(Odd(s))
  {
    if s == [] {
      assert Odd(s) == {};
    } else {
      var k := |s| - 1;
      XorOdd(s[..k]);
      assert s == s[..k] + [s[k]];
      OddSnoc(s[..k], s[k]);
      XorSetToggle(Odd(s[..k]), s[k]);
    }
  }

  lemma OddFilter(s: seq<Key>, f: Key -> bool)
    ensures Odd(Filter(s, f)) == set x | x in Odd(s) && f(x)
  {
    forall x: Key
      ensures x in Odd(Filter(s, f)) <==> x in Odd(s) && f(x)
    {
      FilterTimes(s, f, x);
      OddTimes(s, x);
      OddTimes(Filter(s, f), x);
    }
  }

  lemma BigSymDiffConcat(s: seq<set<Key>>, t: seq<set<Key>>)
    ensures BigSymDiff(s + t) == SymDiff(BigSymDiff(s), BigSymDiff(t))
  {
    if t == [] {
      assert s + t == s;
    } else {
      var k := |t| - 1;
      assert (s + t)[..|s + t| - 1] == s + t[..k];
      BigSymDiffConcat(s, t[..k]);
    }
  }

  lemma BigSymDiffEmpty(s: seq<set<Key>>)
    requires forall i :: 0 <= i < |s| ==> s[i] == {}
    ensures BigSymDiff(s) == {}
  {
  }
}
