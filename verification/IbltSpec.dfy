/**
 What a cell of an invertible Bloom lookup table stands for, and what peeling can do to a set of entries.
 */
module IbltSpec {
  import opened Arithmetic
  import opened Parity

  /** `spot(i, key)` and `check(key)` stand for MurmurHash3 with seeds i and N_HASHCHECK; nothing is assumed
      about them. The table has numHashes regions of `buckets` cells each. */
  datatype RawShape = RawShape(spot: (nat, Key) -> nat, check: Key -> Key, numHashes: nat, buckets: nat, valueSize: nat)

  type Shape = s: RawShape | 1 <= s.numHashes && 1 <= s.buckets
    witness RawShape((_, _) => 0, k => k, 1, 1, 0)

  /** An entry that was inserted (plus) or erased. A value is a list of bytes, each given by its bits. */
  datatype Entry = Entry(key: Key, value: seq<Key>, plus: bool)

  function Neg(e: Entry): Entry {
    e.(plus := !e.plus)
  }

  function Size(h: Shape): nat {
    Area(h.buckets, h.numHashes)
  }

  /** The cell of the i-th hash function. */
  function Spot(h: Shape, i: nat, key: Key): nat {
    Area(h.buckets, i) + Mod(h.spot(i, key), h.buckets)
  }

  ghost predicate TouchesBelow(h: Shape, key: Key, k: nat, c: nat) {
    exists i: nat :: i < k && Spot(h, i, key) == c
  }

  ghost predicate Touches(h: Shape, key: Key, c: nat) {
    TouchesBelow(h, key, h.numHashes, c)
  }

  /** The entries that share cell c. */
  ghost function At(h: Shape, s: set<Entry>, c: nat): set<Entry> {
    set e | e in s && Touches(h, e.key, c)
  }

  lemma SpotInRegion(h: Shape, i: nat, key: Key)
    ensures Area(h.buckets, i) <= Spot(h, i, key) < Area(h.buckets, i + 1)
    ensures i < h.numHashes ==> Spot(h, i, key) < Size(h) && Touches(h, key, Spot(h, i, key))
  {
    if i < h.numHashes {
      AreaMonotone(h.buckets, i + 1, h.numHashes);
    }
  }

  /** Different hash functions have different cells. */
  lemma SpotsDiffer(h: Shape, i: nat, j: nat, key: Key)
    requires i < j
    ensures Spot(h, i, key) != Spot(h, j, key)
  {
    SpotInRegion(h, i, key);
    SpotInRegion(h, j, key);
    AreaMonotone(h.buckets, i + 1, j);
  }

  /** Cell c is the cell of a key under one of the hash functions, whose regions lie one after another. */
  ghost predicate HashedTo(h: Shape, key: Key, c: nat) {
    exists i: nat :: i < h.numHashes && c == h.buckets * i + h.spot(i, key) % h.buckets
  }

  lemma TouchesHashed(h: Shape, key: Key, c: nat)
    ensures Touches(h, key, c) <==> HashedTo(h, key, c)
  {
    forall i: nat
      ensures Spot(h, i, key) == h.buckets * i + h.spot(i, key) % h.buckets
    {
      AreaIsProduct(h.buckets, i);
      ModIs(h.spot(i, key), h.buckets);
    }
    if HashedTo(h, key, c) {
      var i: nat :| i < h.numHashes && c == h.buckets * i + h.spot(i, key) % h.buckets;
      assert Spot(h, i, key) == c;
    }
  }

  // ---------- what a cell holds ----------

  /** XOR of byte lists; what is missing in the second counts as zero. */
  function XorBytes(a: seq<Key>, b: seq<Key>): (r: seq<Key>)
    ensures |r| == |a|
  {
    seq(|a|, i requires 0 <= i < |a| => Xor(a[i], if i < |b| then b[i] else ZERO))
  }

  datatype Sum = Sum(count: int, key: Key, check: Key, value: seq<Key>)

  function Plus(a: Sum, b: Sum): Sum {
    Sum(a.count + b.count, Xor(a.key, b.key), Xor(a.check, b.check), XorBytes(a.value, b.value))
  }

  function Minus(a: Sum, b: Sum): Sum {
    Sum(a.count - b.count, Xor(a.key, b.key), Xor(a.check, b.check), XorBytes(a.value, b.value))
  }

  function Nothing(h: Shape): Sum {
    Sum(0, ZERO, ZERO, Zeros(h.valueSize))
  }

  function One(h: Shape, e: Entry): Sum {
    Sum(if e.plus then 1 else -1, e.key, h.check(e.key), e.value)
  }

  /** The signed sum of a set of entries. */
  ghost function Total(h: Shape, s: set<Entry>): (r: Sum)
    ensures |r.value| == h.valueSize
  {
    if s == {} then Nothing(h) else var e :| e in s; Plus(Total(h, s - {e}), One(h, e))
  }

  predicate Pure(h: Shape, x: Sum) {
    (x.count == 1 || x.count == -1) && x.check == h.check(x.key)
  }

  predicate Empty(x: Sum) {
    x.count == 0 && x.key == ZERO && x.check == ZERO
  }

  lemma XorBytesSwap(a: seq<Key>, b: seq<Key>, c: seq<Key>)
    ensures XorBytes(XorBytes(a, b), c) == XorBytes(XorBytes(a, c), b)
  {
    forall i | 0 <= i < |a|
      ensures XorBytes(XorBytes(a, b), c)[i] == XorBytes(XorBytes(a, c), b)[i]
    {
      XorSwap(a[i], if i < |b| then b[i] else ZERO, if i < |c| then c[i] else ZERO);
    }
  }

  lemma XorBytesCancel(a: seq<Key>, b: seq<Key>)
    ensures XorBytes(XorBytes(a, b), b) == a
  {
    forall i | 0 <= i < |a|
      ensures XorBytes(XorBytes(a, b), b)[i] == a[i]
    {
      XorCancels(a[i], if i < |b| then b[i] else ZERO);
    }
  }

  lemma PlusSwap(a: Sum, b: Sum, c: Sum)
    ensures Plus(Plus(a, b), c) == Plus(Plus(a, c), b)
  {
    XorSwap(a.key, b.key, c.key);
    XorSwap(a.check, b.check, c.check);
    XorBytesSwap(a.value, b.value, c.value);
  }

  lemma PlusCancel(h: Shape, a: Sum, e: Entry)
    ensures Plus(Plus(a, One(h, e)), One(h, Neg(e))) == a
  {
    XorCancels(a.key, e.key);
    XorCancels(a.check, h.check(e.key));
    XorBytesCancel(a.value, e.value);
  }

  lemma {:induction false} TotalRemove(h: Shape, s: set<Entry>, e: Entry)
    requires e in s
    ensures Total(h, s) == Plus(Total(h, s - {e}), One(h, e))
    decreases |s|
  {
    var f :| f in s && Total(h, s) == Plus(Total(h, s - {f}), One(h, f));
    if f == e {
    } else {
      TotalRemove(h, s - {f}, e);
      TotalRemove(h, s - {e}, f);
      assert s - {f} - {e} == s - {e} - {f};
      PlusSwap(Total(h, s - {f} - {e}), One(h, e), One(h, f));
    }
  }

  /** Adding an entry cancels its opposite, if that is there. */
  ghost function Toggle(s: set<Entry>, e: Entry): set<Entry> {
    if Neg(e) in s then s - {Neg(e)} else s + {e}
  }

  lemma TotalToggle(h: Shape, s: set<Entry>, e: Entry)
    requires e !in s
    ensures Total(h, Toggle(s, e)) == Plus(Total(h, s), One(h, e))
  {
    if Neg(e) in s {
      TotalRemove(h, s, Neg(e));
      PlusCancel(h, Total(h, s - {Neg(e)}), Neg(e));
    } else {
      TotalRemove(h, s + {e}, e);
      assert s + {e} - {e} == s;
    }
  }

  lemma AtToggle(h: Shape, s: set<Entry>, e: Entry, c: nat)
    ensures At(h, Toggle(s, e), c) == if Touches(h, e.key, c) then Toggle(At(h, s, c), e) else At(h, s, c)
  {
  }

  /** The entries of the difference of two tables of inserted entries. */
  ghost function Difference(a: set<Entry>, b: set<Entry>): set<Entry> {
    (a - b) + set e | e in b - a :: Neg(e)
  }

  ghost predicate AllPlus(s: set<Entry>) {
    forall e :: e in s ==> e.plus
  }

  lemma MinusNothing(h: Shape, a: Sum)
    ensures Minus(a, Nothing(h)) == a
  {
    XorZero(a.key);
    XorZero(a.check);
    forall i | 0 <= i < |a.value|
      ensures XorBytes(a.value, Zeros(h.valueSize))[i] == a.value[i]
    {
      XorZero(a.value[i]);
    }
  }

  lemma XorBytesAssociates(a: seq<Key>, b: seq<Key>, c: seq<Key>)
    requires |a| <= |b|
    ensures XorBytes(a, XorBytes(b, c)) == XorBytes(XorBytes(a, b), c)
  {
    forall i | 0 <= i < |a|
      ensures XorBytes(a, XorBytes(b, c))[i] == XorBytes(XorBytes(a, b), c)[i]
    {
      XorAssociates(a[i], b[i], if i < |c| then c[i] else ZERO);
    }
  }

  lemma MinusPlus(h: Shape, a: Sum, b: Sum, e: Entry)
    requires |a.value| <= |b.value|
    ensures Minus(a, Plus(b, One(h, e))) == Plus(Minus(a, b), One(h, Neg(e)))
  {
    XorAssociates(a.key, b.key, e.key);
    XorAssociates(a.check, b.check, h.check(e.key));
    XorBytesAssociates(a.value, b.value, e.value);
  }

  /** Subtracting cell by cell gives the sum of the difference. */
  lemma {:induction false} TotalDifference(h: Shape, a: set<Entry>, b: set<Entry>)
    requires AllPlus(a) && AllPlus(b)
    ensures Minus(Total(h, a), Total(h, b)) == Total(h, Difference(a, b))
    decreases |b|
  {
    if b == {} {
      MinusNothing(h, Total(h, a));
      assert Difference(a, b) == a;
    } else {
      var e :| e in b;
      var d := Difference(a, b - {e});
      TotalDifference(h, a, b - {e});
      TotalRemove(h, b, e);
      MinusPlus(h, Total(h, a), Total(h, b - {e}), e);
      assert Neg(Neg(e)) == e;
      DifferenceStep(a, b, e);
      TotalToggle(h, d, Neg(e));
    }
  }

  lemma DifferenceStep(a: set<Entry>, b: set<Entry>, e: Entry)
    requires AllPlus(a) && AllPlus(b) && e in b
    ensures Neg(e) !in Difference(a, b - {e})
    ensures Difference(a, b) == Toggle(Difference(a, b - {e}), Neg(e))
  {
    var d := Difference(a, b - {e});
    forall x: Entry
      ensures x in Difference(a, b) <==> x in Toggle(d, Neg(e))
    {
      assert Neg(Neg(x)) == x && Neg(Neg(e)) == e;
    }
  }

  lemma AtDifference(h: Shape, a: set<Entry>, b: set<Entry>, c: nat)
    ensures At(h, Difference(a, b), c) == Difference(At(h, a, c), At(h, b, c))
  {
    forall x: Entry
      ensures x in At(h, Difference(a, b), c) <==> x in Difference(At(h, a, c), At(h, b, c))
    {
      assert Neg(Neg(x)) == x && Neg(x).key == x.key;
    }
  }

  // ---------- hashes without coincidences ----------

  /** Among entries that share a cell, only a single one looks pure, and none at all looks empty. */
  ghost predicate NoFalse(h: Shape, s: set<Entry>) {
    forall c: nat, t :: t <= At(h, s, c) ==>
      (Pure(h, Total(h, t)) ==> |t| == 1) && (Empty(Total(h, t)) ==> t == {})
  }

  ghost predicate Values(h: Shape, s: set<Entry>) {
    forall e :: e in s ==> |e.value| == h.valueSize
  }

  lemma NoFalseSubset(h: Shape, s: set<Entry>, t: set<Entry>)
    requires NoFalse(h, s) && t <= s
    ensures NoFalse(h, t)
  {
    forall c: nat, u | u <= At(h, t, c)
      ensures (Pure(h, Total(h, u)) ==> |u| == 1) && (Empty(Total(h, u)) ==> u == {})
    {
      assert u <= At(h, s, c);
    }
  }

  lemma {:induction false} CountOfInserted(h: Shape, t: set<Entry>)
    requires AllPlus(t)
    ensures Total(h, t).count == |t|
    decreases |t|
  {
    if t == {} {
    } else {
      var e :| e in t;
      TotalRemove(h, t, e);
      CountOfInserted(h, t - {e});
    }
  }

  /** A table of inserted entries only never deceives: its counts are the numbers of entries. */
  lemma InsertedNoFalse(h: Shape, s: set<Entry>)
    requires AllPlus(s)
    ensures NoFalse(h, s)
  {
    forall c: nat, t | t <= At(h, s, c)
      ensures (Pure(h, Total(h, t)) ==> |t| == 1) && (Empty(Total(h, t)) ==> t == {})
    {
      CountOfInserted(h, t);
    }
  }

  lemma TotalTwo(h: Shape, e: Entry, f: Entry)
    requires e != f
    ensures Total(h, {e, f}).count == (if e.plus then 1 else -1) + (if f.plus then 1 else -1)
    ensures Total(h, {e, f}).key == Xor(e.key, f.key)
  {
    TotalRemove(h, {e, f}, f);
    assert {e, f} - {f} == {e};
    TotalRemove(h, {e}, e);
    assert {e} - {e} == {};
    XorZeroLeft(e.key);
  }

  /** Whatever the checks are: two entries of different keys never look empty. */
  lemma TwoNeverCancel(h: Shape, e: Entry, f: Entry)
    requires e.key != f.key
    ensures !Empty(Total(h, {e, f}))
  {
    TotalTwo(h, e, f);
    if Xor(e.key, f.key) == ZERO {
      XorCancels(e.key, f.key);
      XorZeroLeft(f.key);
    }
  }

  /** All bits of the checks of a set of entries. */
  ghost function CheckBits(h: Shape, t: set<Entry>): set<nat> {
    set e, b | e in t && b in h.check(e.key).ones :: b
  }

  /** Every check is a single bit, and different entries have different ones. */
  ghost predicate OneBitChecks(h: Shape, s: set<Entry>) {
    && (forall k :: |h.check(k).ones| == 1)
    && (forall e, f :: e in s && f in s && e != f ==> h.check(e.key) != h.check(f.key))
  }

  lemma OneBit(a: set<nat>, b: set<nat>, x: nat)
    requires |a| == |b| == 1 && x in a && x in b
    ensures a == b
  {
    SingleMember(a, x);
    SingleMember(b, x);
  }

  lemma BitsOfOneMore(h: Shape, t: set<Entry>, e: Entry)
    requires OneBitChecks(h, t) && e in t
    ensures CheckBits(h, t) == CheckBits(h, t - {e}) + h.check(e.key).ones
    ensures CheckBits(h, t - {e}) !! h.check(e.key).ones
  {
    forall x | x in CheckBits(h, t - {e}) && x in h.check(e.key).ones
      ensures false
    {
      var f :| f in t - {e} && x in h.check(f.key).ones;
      OneBit(h.check(e.key).ones, h.check(f.key).ones, x);
    }
  }

  lemma DisjointBits(a: set<nat>, b: set<nat>)
    requires a !! b
    ensures SymDiff(a, b) == a + b && |a + b| == |a| + |b|
  {
  }

  lemma {:induction false} ChecksAddUp(h: Shape, t: set<Entry>)
    requires OneBitChecks(h, t)
    ensures Total(h, t).check.ones == CheckBits(h, t) && |CheckBits(h, t)| == |t|
    decreases |t|
  {
    if t == {} {
    } else {
      var e :| e in t;
      TotalRemove(h, t, e);
      ChecksAddUp(h, t - {e});
      BitsOfOneMore(h, t, e);
      DisjointBits(CheckBits(h, t - {e}), h.check(e.key).ones);
    }
  }

  /** With such checks no cell deceives, also when entries of both signs meet in it. */
  lemma OneBitNoFalse(h: Shape, s: set<Entry>)
    requires OneBitChecks(h, s)
    ensures NoFalse(h, s)
  {
    forall c: nat, t | t <= At(h, s, c)
      ensures (Pure(h, Total(h, t)) ==> |t| == 1) && (Empty(Total(h, t)) ==> t == {})
    {
      ChecksAddUp(h, t);
    }
  }

  lemma TotalSingle(h: Shape, e: Entry)
    requires |e.value| == h.valueSize
    ensures Total(h, {e}) == One(h, e)
  {
    TotalRemove(h, {e}, e);
    assert {e} - {e} == {};
    XorZeroLeft(e.key);
    XorZeroLeft(h.check(e.key));
    forall i | 0 <= i < |e.value|
      ensures XorBytes(Zeros(h.valueSize), e.value)[i] == e.value[i]
    {
      XorZeroLeft(e.value[i]);
    }
  }

  lemma XorZeroLeft(a: Key)
    ensures Xor(ZERO, a) == a
  {
    XorZero(a);
    XorCommutes(ZERO, a);
  }

  lemma SingleMember<T>(s: set<T>, e: T)
    requires |s| == 1 && e in s
    ensures s == {e}
  {
    assert |s - {e}| == 0;
  }

  /** What the tests on a cell say about the entries in it. */
  lemma CellTests(h: Shape, s: set<Entry>, c: nat)
    requires NoFalse(h, s) && Values(h, s)
    ensures var t := At(h, s, c);
            && (Empty(Total(h, t)) <==> t == {})
            && (Pure(h, Total(h, t)) <==> |t| == 1)
            && (forall e :: e in t && |t| == 1 ==> t == {e} && Total(h, t) == One(h, e))
  {
    var t := At(h, s, c);
    assert t <= At(h, s, c);
    if |t| == 1 {
      var e :| e in t;
      SingleMember(t, e);
      TotalSingle(h, e);
    }
  }

  // ---------- peeling ----------

  /** Every cell that an entry touches holds a second one. */
  ghost predicate Stuck(h: Shape, s: set<Entry>) {
    forall e, c: nat :: e in s && Touches(h, e.key, c) ==> |At(h, s, c)| >= 2
  }

  /** All entries of all stuck subsets. */
  ghost function Core(h: Shape, s: set<Entry>): set<Entry> {
    set e | e in s && exists t: set<Entry> :: InStuck(h, s, t, e)
  }

  ghost predicate InStuck(h: Shape, s: set<Entry>, t: set<Entry>, e: Entry) {
    e in t && t <= s && Stuck(h, t)
  }

  lemma AtMonotone(h: Shape, s: set<Entry>, t: set<Entry>, c: nat)
    requires t <= s
    ensures At(h, t, c) <= At(h, s, c) && |At(h, t, c)| <= |At(h, s, c)|
  {
    SubsetSize(At(h, t, c), At(h, s, c));
  }

  lemma SubsetSize<T>(a: set<T>, b: set<T>)
    requires a <= b
    ensures |a| <= |b|
  {
    assert b == a + (b - a);
    assert |a + (b - a)| == |a| + |b - a|;
  }

  /** The core is the largest stuck subset. */
  lemma CoreIsLargestStuck(h: Shape, s: set<Entry>)
    ensures Core(h, s) <= s && Stuck(h, Core(h, s))
    ensures forall t :: t <= s && Stuck(h, t) ==> t <= Core(h, s)
  {
    forall t | t <= s && Stuck(h, t)
      ensures t <= Core(h, s)
    {
      forall e | e in t
        ensures e in Core(h, s)
      {
        assert InStuck(h, s, t, e);
      }
    }
    forall e, c: nat | e in Core(h, s) && Touches(h, e.key, c)
      ensures |At(h, Core(h, s), c)| >= 2
    {
      var t :| InStuck(h, s, t, e);
      AtMonotone(h, Core(h, s), t, c);
    }
  }

  lemma SeparatedCells(h: Shape, i: nat, a: Key, b: Key)
    requires i < h.numHashes && h.spot(i, a) % h.buckets != h.spot(i, b) % h.buckets
    ensures Touches(h, a, Spot(h, i, a)) && !Touches(h, b, Spot(h, i, a))
  {
    SpotInRegion(h, i, a);
    ModIs(h.spot(i, a), h.buckets);
    ModIs(h.spot(i, b), h.buckets);
    forall j: nat | j < h.numHashes && j != i
      ensures Spot(h, j, b) != Spot(h, i, a)
    {
      SpotInRegion(h, j, b);
      AreaMonotone(h.buckets, if j < i then j + 1 else i + 1, if j < i then i else j);
    }
  }

  /** The i-th hash function throws different entries into different cells. */
  ghost predicate Separates(h: Shape, s: set<Entry>, i: nat) {
    forall e, f :: e in s && f in s && e != f ==> h.spot(i, e.key) % h.buckets != h.spot(i, f.key) % h.buckets
  }

  lemma AloneInCell(h: Shape, s: set<Entry>, i: nat, e: Entry)
    requires i < h.numHashes && Separates(h, s, i) && e in s
    ensures Touches(h, e.key, Spot(h, i, e.key)) && |At(h, s, Spot(h, i, e.key))| == 1
  {
    var c := Spot(h, i, e.key);
    SpotInRegion(h, i, e.key);
    forall f | f in s && f != e
      ensures !Touches(h, f.key, c)
    {
      SeparatedCells(h, i, e.key, f.key);
    }
    assert At(h, s, c) == {e};
  }

  /** If one of the hash functions keeps all entries apart, nothing is stuck. */
  lemma SeparatedCore(h: Shape, s: set<Entry>, i: nat)
    requires i < h.numHashes && Separates(h, s, i)
    ensures Core(h, s) == {}
  {
    CoreIsLargestStuck(h, s);
    var core := Core(h, s);
    if core != {} {
      var e :| e in core;
      AloneInCell(h, core, i, e);
    }
  }

  /** Taking out an entry that is alone in some cell leaves the core alone. */
  lemma PeelKeepsCore(h: Shape, s: set<Entry>, e: Entry, c: nat)
    requires At(h, s, c) == {e}
    ensures e in s && e !in Core(h, s) && Core(h, s - {e}) == Core(h, s)
  {
    assert e in At(h, s, c);
    forall t | t <= s && Stuck(h, t)
      ensures e !in t
    {
      AtMonotone(h, s, t, c);
    }
    CoreIsLargestStuck(h, s);
    CoreIsLargestStuck(h, s - {e});
    assert Core(h, s) <= s - {e};
  }

  /** When no cell holds a single entry, the core is all that is left. */
  lemma NothingAlone(h: Shape, s: set<Entry>)
    requires forall c: nat :: c < Size(h) ==> |At(h, s, c)| != 1
    ensures Core(h, s) == s
  {
    forall e, c: nat | e in s && Touches(h, e.key, c)
      ensures |At(h, s, c)| >= 2
    {
      var i: nat :| i < h.numHashes && Spot(h, i, e.key) == c;
      SpotInRegion(h, i, e.key);
      assert e in At(h, s, c);
      assert |At(h, s, c)| != 1;
    }
    CoreIsLargestStuck(h, s);
    assert s <= s && Stuck(h, s);
  }

  /** Entries taken out one by one, each alone in some cell when its turn comes. */
  ghost predicate Peels(h: Shape, s: set<Entry>, order: seq<Entry>, rest: set<Entry>)
    decreases |order|
  {
    if order == [] then rest == s
    else exists c: nat :: At(h, s, c) == {order[0]} && Peels(h, s - {order[0]}, order[1..], rest)
  }

  /** Confluence: whatever the order, when nothing more can be taken out the core is left, and exactly the
      other entries were taken out. */
  lemma {:induction false} PeelingIsConfluent(h: Shape, s: set<Entry>, order: seq<Entry>, rest: set<Entry>)
    requires Peels(h, s, order, rest)
    ensures Core(h, rest) == Core(h, s) && rest == s - ToSet(order)
    ensures (forall c: nat :: c < Size(h) ==> |At(h, rest, c)| != 1)
            ==> rest == Core(h, s) && ToSet(order) == s - Core(h, s)
    decreases |order|
  {
    if order == [] {
    } else {
      var c: nat :| At(h, s, c) == {order[0]} && Peels(h, s - {order[0]}, order[1..], rest);
      PeelKeepsCore(h, s, order[0], c);
      PeelingIsConfluent(h, s - {order[0]}, order[1..], rest);
      HeadTail(order);
    }
    if forall c: nat :: c < Size(h) ==> |At(h, rest, c)| != 1 {
      NothingAlone(h, rest);
    }
    PeeledInside(h, s, order, rest);
  }

  lemma HeadTail<T>(s: seq<T>)
    requires s != []
    ensures ToSet(s) == {s[0]} + ToSet(s[1..])
  {
    assert s == [s[0]] + s[1..];
  }

  lemma {:induction false} PeeledInside(h: Shape, s: set<Entry>, order: seq<Entry>, rest: set<Entry>)
    requires Peels(h, s, order, rest)
    ensures ToSet(order) <= s
    decreases |order|
  {
    if order == [] {
    } else {
      var c: nat :| At(h, s, c) == {order[0]} && Peels(h, s - {order[0]}, order[1..], rest);
      PeeledInside(h, s - {order[0]}, order[1..], rest);
      assert order[0] in At(h, s, c);
      HeadTail(order);
    }
  }
}
