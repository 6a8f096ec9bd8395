/**
 The class `IBLT`: signed XOR cells, subtraction, peeling and lookup, proved against sets of entries.
 */
module Iblt {
  import opened Arithmetic
  import opened Parity
  import opened IbltSpec

  datatype Cell = Cell(count: int, keySum: Key, keyCheck: Key, valueSum: seq<Key>)

  const NO_CELL: Cell := Cell(0, ZERO, ZERO, [])

  predicate IsPure(h: Shape, cell: Cell) {
    (cell.count == 1 || cell.count == -1) && cell.keyCheck == h.check(cell.keySum)
  }

  predicate IsEmpty(cell: Cell) {
    cell.count == 0 && cell.keySum == ZERO && cell.keyCheck == ZERO
  }

  function Padded(a: seq<Key>, n: nat): (r: seq<Key>) {
    if |a| < n then a + Zeros(n - |a|) else a
  }

  /** valueSum after addValue(v). */
  function Added(a: seq<Key>, v: seq<Key>): seq<Key> {
    if v == [] then a else XorBytes(Padded(a, |v|), v)
  }

  method AddValue(valueSum: seq<Key>, v: seq<Key>) returns (r: seq<Key>)
    ensures r == Added(valueSum, v)
    ensures |r| == if |valueSum| < |v| then |v| else |valueSum|
    ensures forall j :: 0 <= j < |r| ==>
              r[j] == Xor(if j < |valueSum| then valueSum[j] else ZERO, if j < |v| then v[j] else ZERO)
  {
    r := valueSum;
    BytesAdded(valueSum, v);
    if v == [] {
      return;
    }
    if |r| < |v| {
      r := r + Zeros(|v| - |r|);
    }
    ghost var padded := r;
    var i := 0;
    while i < |v|
      invariant i <= |v| <= |r| == |padded|
      invariant forall j :: 0 <= j < |r| ==> r[j] == if j < i then Xor(padded[j], v[j]) else padded[j]
    {
      r := r[i := Xor(r[i], v[i])];
      i := i + 1;
    }
    BeyondEnd(padded, v, r);
  }

  /** Byte by byte; what is missing in either counts as zero. */
  lemma BytesAdded(a: seq<Key>, v: seq<Key>)
    ensures |Added(a, v)| == if |a| < |v| then |v| else |a|
    ensures forall j :: 0 <= j < |Added(a, v)| ==>
              Added(a, v)[j] == Xor(if j < |a| then a[j] else ZERO, if j < |v| then v[j] else ZERO)
  {
    forall j | 0 <= j < |a|
      ensures Xor(a[j], ZERO) == a[j]
    {
      XorZero(a[j]);
    }
  }

  lemma BeyondEnd(a: seq<Key>, v: seq<Key>, r: seq<Key>)
    requires |v| <= |a| == |r|
    requires forall j :: 0 <= j < |r| ==> r[j] == if j < |v| then Xor(a[j], v[j]) else a[j]
    ensures r == XorBytes(a, v)
  {
    forall j | 0 <= j < |r|
      ensures r[j] == XorBytes(a, v)[j]
    {
      XorZero(a[j]);
    }
  }

  // ---------- cells and the entries in them ----------

  /** A cell holds the sum of a set of entries. The values of no entries may be missing altogether. */
  ghost predicate Holds(h: Shape, cell: Cell, t: set<Entry>) {
    var x := Total(h, t);
    && cell.count == x.count && cell.keySum == x.key && cell.keyCheck == x.check
    && (cell.valueSum == x.value || (t == {} && cell.valueSum == []))
  }

  ghost predicate TableHolds(h: Shape, table: seq<Cell>, s: set<Entry>) {
    && |table| == Size(h)
    && Values(h, s)
    && forall c :: 0 <= c < |table| ==> Holds(h, table[c], At(h, s, c))
  }

  /** A cell after one more entry. */
  function Updated(h: Shape, cell: Cell, e: Entry): Cell {
    var x := Cell(cell.count + (if e.plus then 1 else -1), Xor(cell.keySum, e.key),
                  Xor(cell.keyCheck, h.check(e.key)), cell.valueSum);
    x.(valueSum := if IsEmpty(x) then [] else Added(cell.valueSum, e.value))
  }

  lemma PaddedZeros(n: nat)
    ensures Padded([], n) == Zeros(n)
  {
  }

  lemma UpdatedHolds(h: Shape, cell: Cell, t: set<Entry>, e: Entry)
    requires Holds(h, cell, t) && e !in t && |e.value| == h.valueSize
    requires Empty(Total(h, Toggle(t, e))) ==> Toggle(t, e) == {}
    ensures Holds(h, Updated(h, cell, e), Toggle(t, e))
  {
    TotalToggle(h, t, e);
    PaddedZeros(h.valueSize);
  }

  /** Updating every cell an entry touches adds it to the table, or cancels its opposite. */
  lemma TableUpdated(h: Shape, was: seq<Cell>, now: seq<Cell>, s: set<Entry>, e: Entry)
    requires TableHolds(h, was, s) && e !in s && |e.value| == h.valueSize
    requires NoFalse(h, Toggle(s, e))
    requires |now| == |was|
    requires forall c :: 0 <= c < |was| ==> now[c] == if Touches(h, e.key, c) then Updated(h, was[c], e) else was[c]
    ensures TableHolds(h, now, Toggle(s, e))
  {
    forall c | 0 <= c < |now|
      ensures Holds(h, now[c], At(h, Toggle(s, e), c))
    {
      AtToggle(h, s, e, c);
      if Touches(h, e.key, c) {
        var t := Toggle(At(h, s, c), e);
        assert t <= At(h, Toggle(s, e), c);
        UpdatedHolds(h, was[c], At(h, s, c), e);
      }
    }
  }

  /** isPure and empty, read as statements about the entries of a cell. */
  lemma CellMeans(h: Shape, table: seq<Cell>, s: set<Entry>, c: nat)
    requires TableHolds(h, table, s) && NoFalse(h, s) && c < |table|
    ensures IsEmpty(table[c]) <==> At(h, s, c) == {}
    ensures IsPure(h, table[c]) <==> |At(h, s, c)| == 1
    ensures IsPure(h, table[c]) ==> At(h, s, c) == {EntryOf(table[c])}
  {
    CellTests(h, s, c);
    assert Holds(h, table[c], At(h, s, c));
    if |At(h, s, c)| == 1 {
      var e :| e in At(h, s, c);
      assert Total(h, At(h, s, c)) == One(h, e);
    }
  }

  function EntryOf(cell: Cell): Entry {
    Entry(cell.keySum, cell.valueSum, cell.count == 1)
  }

  /** Erasing the entry of a pure cell takes it out of the table. */
  lemma PureErased(h: Shape, was: seq<Cell>, now: seq<Cell>, s: set<Entry>, c: nat)
    requires TableHolds(h, was, s) && NoFalse(h, s) && c < |was| == |now| && IsPure(h, was[c])
    requires var e := Neg(EntryOf(was[c]));
             forall k :: 0 <= k < |was| ==> now[k] == if Touches(h, e.key, k) then Updated(h, was[k], e) else was[k]
    ensures var e := EntryOf(was[c]);
            && e in s && TableHolds(h, now, s - {e}) && NoFalse(h, s - {e})
            && Core(h, s - {e}) == Core(h, s) && |s - {e}| < |s|
  {
    var e := EntryOf(was[c]);
    CellMeans(h, was, s, c);
    assert e in At(h, s, c);
    assert Neg(e) in s ==> Neg(e) in At(h, s, c);
    assert Neg(Neg(e)) == e;
    NoFalseSubset(h, s, s - {e});
    PeelKeepsCore(h, s, e, c);
    TableUpdated(h, was, now, s, Neg(e));
  }

  // ---------- lists of entries ----------

  type Item = (Key, seq<Key>)

  /** The inserted (or the erased) entries of a set. */
  ghost function Signed(s: set<Entry>, plus: bool): set<Item> {
    set e | e in s && e.plus == plus :: (e.key, e.value)
  }

  lemma SignedMore(s: set<Entry>, r: set<Entry>, e: Entry, plus: bool)
    requires r <= s && e in r
    ensures Signed(s - (r - {e}), plus) == Signed(s - r, plus) + (if e.plus == plus then {(e.key, e.value)} else {})
  {
    assert s - (r - {e}) == (s - r) + {e};
  }

  type Lists = (set<Item>, set<Item>)

  /** The lists are what they were and the entries taken out since. */
  ghost predicate Recorded(pos: set<Item>, neg: set<Item>, old0: Lists, gone: set<Entry>) {
    pos == old0.0 + Signed(gone, true) && neg == old0.1 + Signed(gone, false)
  }

  lemma RecordedMore(pos: set<Item>, neg: set<Item>, old0: Lists, s: set<Entry>, r: set<Entry>, e: Entry)
    requires Recorded(pos, neg, old0, s - r) && r <= s && e in r
    ensures var one := {(e.key, e.value)};
            Recorded(if e.plus then pos + one else pos, if e.plus then neg else neg + one, old0, s - (r - {e}))
  {
    SignedMore(s, r, e, true);
    SignedMore(s, r, e, false);
  }

  class IBLT {
    const h: Shape
    var table: seq<Cell>

    ghost predicate Valid()
      reads this
    {
      |table| == Size(h)
    }

    constructor (shape: Shape)
      ensures h == shape && Valid() && TableHolds(h, table, {})
    {
      h := shape;
      table := seq(Size(shape), _ => NO_CELL);
      new;
      forall c | 0 <= c < |table|
        ensures Holds(h, table[c], At(h, {}, c))
      {
        assert At(h, {}, c) == {};
      }
    }

    constructor Copy(other: IBLT)
      ensures h == other.h && table == other.table
    {
      h, table := other.h, other.table;
    }

    /** _insert: every cell the key touches is updated, once, and no other. */
    method InsertSigned(plus: bool, k: Key, v: seq<Key>)
      requires Valid() && |v| == h.valueSize
      modifies this`table
      ensures Valid()
      ensures forall c :: 0 <= c < |table| ==>
                table[c] == if Touches(h, k, c) then Updated(h, old(table)[c], Entry(k, v, plus)) else old(table)[c]
      ensures forall c :: 0 <= c < |table| ==>
                table[c] == if HashedTo(h, k, c) then Updated(h, old(table)[c], Entry(k, v, plus)) else old(table)[c]
      ensures forall c :: 0 <= c < |table| && HashedTo(h, k, c) && IsEmpty(table[c]) ==> table[c].valueSum == []
    {
      forall c: nat
        ensures Touches(h, k, c) <==> HashedTo(h, k, c)
      {
        TouchesHashed(h, k, c);
      }
      var i := 0;
      while i < h.numHashes
        invariant i <= h.numHashes && Valid()
        invariant forall c :: 0 <= c < |table| ==>
          table[c] == if TouchesBelow(h, k, i, c) then Updated(h, old(table)[c], Entry(k, v, plus)) else old(table)[c]
      {
        var c := Spot(h, i, k);
        SpotInRegion(h, i, k);
        FirstTouch(i, k);
        var x := table[c];
        x := Cell(x.count + (if plus then 1 else -1), Xor(x.keySum, k), Xor(x.keyCheck, h.check(k)), x.valueSum);
        if IsEmpty(x) {
          x := x.(valueSum := []);
        } else {
          var sum := AddValue(x.valueSum, v);
          x := x.(valueSum := sum);
        }
        table := table[c := x];
        i := i + 1;
      }
    }

    lemma FirstTouch(i: nat, k: Key)
      requires i < h.numHashes
      ensures !TouchesBelow(h, k, i, Spot(h, i, k))
      ensures forall c: nat :: TouchesBelow(h, k, i + 1, c) <==> TouchesBelow(h, k, i, c) || c == Spot(h, i, k)
    {
      forall j: nat | j < i
        ensures Spot(h, j, k) != Spot(h, i, k)
      {
        SpotsDiffer(h, j, i, k);
      }
    }

    method Insert(k: Key, v: seq<Key>)
      requires Valid() && |v| == h.valueSize
      modifies this`table
      ensures Valid()
      ensures forall c :: 0 <= c < |table| ==>
                table[c] == if Touches(h, k, c) then Updated(h, old(table)[c], Entry(k, v, true)) else old(table)[c]
    {
      InsertSigned(true, k, v);
    }

    method Erase(k: Key, v: seq<Key>)
      requires Valid() && |v| == h.valueSize
      modifies this`table
      ensures Valid()
      ensures forall c :: 0 <= c < |table| ==>
                table[c] == if Touches(h, k, c) then Updated(h, old(table)[c], Entry(k, v, false)) else old(table)[c]
    {
      InsertSigned(false, k, v);
    }

    // ---------- peeling ----------

    /** One turn of the peeling loop: a pure cell's entry is recorded and taken out. */
    method PeelCell(c: nat, positive: set<Item>, negative: set<Item>, ghost s: set<Entry>, ghost r: set<Entry>,
                    ghost old0: Lists)
      returns (pos: set<Item>, neg: set<Item>, erased: bool, ghost left: set<Entry>)
      requires Valid() && c < |table| && TableHolds(h, table, r) && NoFalse(h, r) && r <= s
      requires Recorded(positive, negative, old0, s - r)
      modifies this`table
      ensures Valid() && TableHolds(h, table, left) && NoFalse(h, left) && left <= r && Core(h, left) == Core(h, r)
      ensures erased == (|At(h, r, c)| == 1)
      ensures if erased then |left| < |r| else left == r
      ensures Recorded(pos, neg, old0, s - left)
    {
      pos, neg, erased, left := positive, negative, false, r;
      CellMeans(h, table, r, c);
      var entry := table[c];
      if IsPure(h, entry) {
        if entry.count == 1 {
          pos := pos + {(entry.keySum, entry.valueSum)};
        } else {
          neg := neg + {(entry.keySum, entry.valueSum)};
        }
        left := r - {EntryOf(entry)};
        assert EntryOf(entry) in At(h, r, c);
        RecordedMore(positive, negative, old0, s, r, EntryOf(entry));
        InsertSigned(entry.count != 1, entry.keySum, entry.valueSum);
        PureErased(h, old(table), table, r, c);
        erased := true;
      }
    }

    /** One scan over all cells. */
    method PeelPass(positive: set<Item>, negative: set<Item>, ghost s: set<Entry>, ghost r: set<Entry>,
                    ghost old0: Lists)
      returns (pos: set<Item>, neg: set<Item>, nErased: nat, ghost left: set<Entry>)
      requires Valid() && TableHolds(h, table, r) && NoFalse(h, r) && r <= s
      requires Recorded(positive, negative, old0, s - r)
      modifies this`table
      ensures Valid() && TableHolds(h, table, left) && NoFalse(h, left) && left <= r && Core(h, left) == Core(h, r)
      ensures nErased > 0 ==> |left| < |r|
      ensures nErased == 0 ==> left == r == Core(h, r)
      ensures Recorded(pos, neg, old0, s - left)
    {
      pos, neg, nErased, left := positive, negative, 0, r;
      var i := 0;
      while i < |table|
        invariant i <= |table| && Valid() && TableHolds(h, table, left) && NoFalse(h, left)
        invariant left <= r && Core(h, left) == Core(h, r)
        invariant nErased > 0 ==> |left| < |r|
        invariant nErased == 0 ==> left == r && forall c: nat :: c < i ==> |At(h, r, c)| != 1
        invariant Recorded(pos, neg, old0, s - left)
      {
        var erased;
        pos, neg, erased, left := PeelCell(i, pos, neg, s, left, old0);
        if erased {
          nErased := nErased + 1;
        }
        i := i + 1;
      }
      if nErased == 0 {
        NothingAlone(h, r);
      }
    }

    /** peelEntries: what stays in the table is the core, and all other entries are listed by their sign. The
        loop ends because every scan but the last takes an entry out. */
    method PeelEntries(positive: set<Item>, negative: set<Item>, ghost s: set<Entry>)
      returns (pos: set<Item>, neg: set<Item>)
      requires Valid() && TableHolds(h, table, s) && NoFalse(h, s)
      modifies this`table
      ensures Valid() && TableHolds(h, table, Core(h, s)) && NoFalse(h, Core(h, s))
      ensures pos == positive + Signed(s - Core(h, s), true)
      ensures neg == negative + Signed(s - Core(h, s), false)
    {
      ghost var old0, left := (positive, negative), s;
      pos, neg := positive, negative;
      assert s - left == {};
      var nErased;
      pos, neg, nErased, left := PeelPass(pos, neg, s, left, old0);
      while nErased > 0
        invariant Valid() && TableHolds(h, table, left) && NoFalse(h, left) && left <= s && Core(h, left) == Core(h, s)
        invariant nErased == 0 ==> left == Core(h, s)
        invariant Recorded(pos, neg, old0, s - left)
        decreases |left|, nErased
      {
        pos, neg, nErased, left := PeelPass(pos, neg, s, left, old0);
      }
    }

    /** listEntries: it succeeds exactly if nothing is stuck, although it looks at one region only, and then
        the two lists are all entries. The lists are right in any case: all entries outside the core. */
    method ListEntries(positive: set<Item>, negative: set<Item>, ghost s: set<Entry>)
      returns (ok: bool, pos: set<Item>, neg: set<Item>)
      requires Valid() && TableHolds(h, table, s) && NoFalse(h, s)
      ensures ok <==> Core(h, s) == {}
      ensures pos == positive + Signed(s - Core(h, s), true)
      ensures neg == negative + Signed(s - Core(h, s), false)
    {
      var peeled := new IBLT.Copy(this);
      pos, neg := peeled.PeelEntries(positive, negative, s);
      ok := peeled.FirstRegionEmpty(Core(h, s));
    }

    /** The final check, over the cells of the first hash function only. */
    method FirstRegionEmpty(ghost r: set<Entry>) returns (ok: bool)
      requires Valid() && TableHolds(h, table, r) && NoFalse(h, r)
      ensures ok <==> r == {}
    {
      FirstRegion();
      var i := 0;
      while i < h.buckets
        invariant i <= h.buckets && forall c: nat :: c < i ==> At(h, r, c) == {}
      {
        CellMeans(h, table, r, i);
        if !IsEmpty(table[i]) {
          return false;
        }
        i := i + 1;
      }
      ghost var c := if r == {} then 0 else SomeSpot(r);
      return true;
    }

    /** Every entry touches a cell of the first region. */
    ghost function SomeSpot(r: set<Entry>): (c: nat)
      requires r != {}
      ensures c < h.buckets && At(h, r, c) != {}
    {
      FirstRegion();
      var e :| e in r;
      SpotInRegion(h, 0, e.key);
      assert e in At(h, r, Spot(h, 0, e.key));
      Spot(h, 0, e.key)
    }

    lemma FirstRegion()
      ensures h.buckets == Area(h.buckets, 1) <= Size(h)
    {
      AreaMonotone(h.buckets, 1, h.numHashes);
      assert Area(h.buckets, 0) == 0;
    }

    // ---------- lookup ----------

    /** The first loop of get: the cells of the key itself. */
    method LookUp(k: Key, ghost s: set<Entry>) returns (found: bool, result: seq<Key>)
      requires Valid() && TableHolds(h, table, s) && NoFalse(h, s)
      ensures found <==> exists i: nat :: i < h.numHashes && |At(h, s, Spot(h, i, k))| <= 1
      ensures if found then Right(s, k, result) else result == []
    {
      result := [];
      var i := 0;
      while i < h.numHashes
        invariant i <= h.numHashes && forall j: nat :: j < i ==> |At(h, s, Spot(h, j, k))| > 1
      {
        var c := Spot(h, i, k);
        SpotInRegion(h, i, k);
        CellAnswers(h, table, s, k, c);
        if IsEmpty(table[c]) {
          return true, result;
        } else if IsPure(h, table[c]) {
          if table[c].keySum == k {
            result := table[c].valueSum;
          }
          return true, result;
        }
        i := i + 1;
      }
      found := false;
    }

    /** One turn of the scan of get: take out a pure cell's entry, unless it is the key's. */
    method PeelOther(k: Key, c: nat, ghost s: set<Entry>)
      returns (found: bool, result: seq<Key>, erased: bool, ghost left: set<Entry>)
      requires Valid() && c < |table| && TableHolds(h, table, s) && NoFalse(h, s)
      modifies this`table
      ensures Valid() && TableHolds(h, table, left) && NoFalse(h, left) && Core(h, left) == Core(h, s)
      ensures found ==> left == s && |At(h, s, c)| == 1 && Touches(h, k, c) && Right(s, k, result)
      ensures !found ==> result == [] && SameFor(s, left, k) && erased == (|At(h, s, c)| == 1)
      ensures if erased then |left| < |s| else left == s
    {
      found, result, erased, left := false, [], false, s;
      CellMeans(h, table, s, c);
      var entry := table[c];
      if IsPure(h, entry) {
        assert EntryOf(entry) in At(h, s, c);
        if entry.keySum == k {
          CellAnswers(h, table, s, k, c);
          found, result := true, entry.valueSum;
        } else {
          left := s - {EntryOf(entry)};
          InsertSigned(entry.count != 1, entry.keySum, entry.valueSum);
          PureErased(h, old(table), table, s, c);
          erased := true;
        }
      }
    }

    /** The scan of get over a copy: stop at the key, take out everything else that is pure. */
    method PeelFor(k: Key, ghost s: set<Entry>)
      returns (found: bool, result: seq<Key>, nErased: nat, ghost left: set<Entry>)
      requires Valid() && TableHolds(h, table, s) && NoFalse(h, s)
      modifies this`table
      ensures Valid() && TableHolds(h, table, left) && NoFalse(h, left) && Core(h, left) == Core(h, s)
      ensures found ==> Right(s, k, result) && Decidable(h, s, k)
      ensures !found ==> result == [] && SameFor(s, left, k)
      ensures !found && nErased > 0 ==> |left| < |s|
      ensures !found && nErased == 0 ==> left == s == Core(h, s)
    {
      found, result, nErased, left := false, [], 0, s;
      var i := 0;
      while i < |table|
        invariant i <= |table| && Valid() && TableHolds(h, table, left) && NoFalse(h, left)
        invariant Core(h, left) == Core(h, s) && SameFor(s, left, k) && result == []
        invariant nErased > 0 ==> |left| < |s|
        invariant nErased == 0 ==> left == s && forall c: nat :: c < i ==> |At(h, s, c)| != 1
      {
        var erased;
        ghost var r := left;
        found, result, erased, left := PeelOther(k, i, left);
        if found {
          AloneDecides(h, s, r, k, i);
          RightBefore(s, r, k, result);
          return;
        }
        if erased {
          nErased := nErased + 1;
        }
        i := i + 1;
      }
      if nErased == 0 {
        NothingAlone(h, s);
      }
    }

    /** get: answers exactly if some cell of the key holds at most one entry of the core, and then rightly. */
    method Get(k: Key, ghost s: set<Entry>) returns (found: bool, result: seq<Key>)
      requires Valid() && TableHolds(h, table, s) && NoFalse(h, s)
      ensures found <==> Decidable(h, s, k)
      ensures if found then Right(s, k, result) else result == []
      decreases |s|
    {
      CoreIsLargestStuck(h, s);
      found, result := LookUp(k, s);
      if found {
        ghost var i: nat :| i < h.numHashes && |At(h, s, Spot(h, i, k))| <= 1;
        SpotInRegion(h, i, k);
        AtMonotone(h, s, Core(h, s), Spot(h, i, k));
        return;
      }
      var peeled := new IBLT.Copy(this);
      var nErased;
      ghost var left;
      found, result, nErased, left := peeled.PeelFor(k, s);
      if !found && nErased > 0 {
        found, result := peeled.Get(k, left);
      }
    }

    // ---------- subtraction ----------

    method Subtract(other: IBLT) returns (result: IBLT)
      requires Valid() && other.Valid() && h == other.h
      ensures result.h == h && result.Valid()
      ensures forall c :: 0 <= c < |table| ==> result.table[c] == MinusCell(table[c], other.table[c])
      ensures forall c :: 0 <= c < |table| && IsEmpty(result.table[c]) ==> result.table[c].valueSum == []
    {
      result := new IBLT.Copy(this);
      var i := 0;
      while i < |table|
        invariant i <= |table| && result.Valid()
        invariant forall c :: 0 <= c < |table| ==>
          result.table[c] == if c < i then MinusCell(table[c], other.table[c]) else table[c]
      {
        var e1, e2 := result.table[i], other.table[i];
        var x := Cell(e1.count - e2.count, Xor(e1.keySum, e2.keySum), Xor(e1.keyCheck, e2.keyCheck), e1.valueSum);
        if IsEmpty(x) {
          x := x.(valueSum := []);
        } else {
          var sum := AddValue(x.valueSum, e2.valueSum);
          x := x.(valueSum := sum);
        }
        result.table := result.table[i := x];
        i := i + 1;
      }
    }

    // ---------- the wire ----------

    /** set: overwrite the first cells; the values are not sent. */
    method SetCells(cells: seq<Wire>)
      requires Valid() && |cells| <= |table|
      modifies this`table
      ensures Valid()
      ensures forall c :: 0 <= c < |table| ==> table[c] == if c < |cells| then Unwired(cells[c]) else old(table)[c]
    {
      var tid := 0;
      while tid < |cells|
        invariant tid <= |cells| && Valid()
        invariant forall c :: 0 <= c < |table| ==> table[c] == if c < tid then Unwired(cells[c]) else old(table)[c]
      {
        table := table[tid := Cell(cells[tid].count, cells[tid].keySum, cells[tid].keyCheck, [ZERO])];
        tid := tid + 1;
      }
    }

    /** The cells as a client sends them. */
    method Data() returns (cells: seq<Wire>)
      requires Valid()
      ensures |cells| == |table| && forall c :: 0 <= c < |table| ==> cells[c] == Wired(table[c])
    {
      cells := [];
      var i := 0;
      while i < |table|
        invariant i <= |table| && |cells| == i && forall c :: 0 <= c < i ==> cells[c] == Wired(table[c])
      {
        cells := cells + [Wire(table[i].count, table[i].keySum, table[i].keyCheck)];
        i := i + 1;
      }
    }
  }

  // ---------- answers ----------

  /** The value of the key if it has an entry, nothing if it has none. */
  ghost predicate Right(s: set<Entry>, k: Key, result: seq<Key>) {
    && (forall e :: e in s && e.key == k ==> result == e.value)
    && ((forall e :: e in s ==> e.key != k) ==> result == [])
  }

  /** Some cell of the key holds at most one entry of the core. */
  ghost predicate Decidable(h: Shape, s: set<Entry>, k: Key) {
    exists c: nat :: Touches(h, k, c) && |At(h, Core(h, s), c)| <= 1
  }

  /** No entry of the key has been taken out. */
  ghost predicate SameFor(s: set<Entry>, left: set<Entry>, k: Key) {
    left <= s && forall e :: e in s && e.key == k ==> e in left
  }

  lemma RightBefore(s: set<Entry>, left: set<Entry>, k: Key, result: seq<Key>)
    requires SameFor(s, left, k) && Right(left, k, result)
    ensures Right(s, k, result)
  {
  }

  /** What a cell of the key tells about the key. */
  lemma CellAnswers(h: Shape, table: seq<Cell>, s: set<Entry>, k: Key, c: nat)
    requires TableHolds(h, table, s) && NoFalse(h, s) && c < |table| && Touches(h, k, c)
    ensures IsEmpty(table[c]) ==> |At(h, s, c)| <= 1 && Right(s, k, [])
    ensures IsPure(h, table[c])
            ==> |At(h, s, c)| <= 1 && Right(s, k, if table[c].keySum == k then table[c].valueSum else [])
    ensures !IsEmpty(table[c]) && !IsPure(h, table[c]) ==> |At(h, s, c)| > 1
  {
    CellMeans(h, table, s, c);
    assert forall e :: e in s && e.key == k ==> e in At(h, s, c);
    if IsPure(h, table[c]) {
      assert EntryOf(table[c]) in At(h, s, c);
    }
  }

  lemma AloneDecides(h: Shape, s: set<Entry>, left: set<Entry>, k: Key, c: nat)
    requires Core(h, left) == Core(h, s) && |At(h, left, c)| == 1 && Touches(h, k, c)
    ensures Decidable(h, s, k)
  {
    CoreIsLargestStuck(h, left);
    AtMonotone(h, left, Core(h, left), c);
  }

  // ---------- subtraction ----------

  function MinusCell(a: Cell, b: Cell): Cell {
    var x := Cell(a.count - b.count, Xor(a.keySum, b.keySum), Xor(a.keyCheck, b.keyCheck), a.valueSum);
    x.(valueSum := if IsEmpty(x) then [] else Added(a.valueSum, b.valueSum))
  }

  lemma XorBytesZeros(a: seq<Key>, n: nat)
    ensures XorBytes(a, Zeros(n)) == a
  {
    forall i | 0 <= i < |a|
      ensures XorBytes(a, Zeros(n))[i] == a[i]
    {
      XorZero(a[i]);
    }
  }

  lemma MinusHolds(h: Shape, a: Cell, b: Cell, s: set<Entry>, t: set<Entry>)
    requires Holds(h, a, s) && Holds(h, b, t) && AllPlus(s) && AllPlus(t)
    requires Empty(Total(h, Difference(s, t))) <==> Difference(s, t) == {}
    ensures Holds(h, MinusCell(a, b), Difference(s, t))
  {
    TotalDifference(h, s, t);
    PaddedZeros(h.valueSize);
    XorBytesZeros(Total(h, s).value, h.valueSize);
    if s == {} && t == {} {
      assert Difference(s, t) == {};
    }
  }

  /** The difference of two tables holds the difference of their entries. */
  lemma TableMinus(h: Shape, a: seq<Cell>, b: seq<Cell>, now: seq<Cell>, s: set<Entry>, t: set<Entry>)
    requires TableHolds(h, a, s) && TableHolds(h, b, t) && AllPlus(s) && AllPlus(t) && NoFalse(h, Difference(s, t))
    requires |now| == |a| && forall c :: 0 <= c < |a| ==> now[c] == MinusCell(a[c], b[c])
    ensures TableHolds(h, now, Difference(s, t))
  {
    forall c | 0 <= c < |now|
      ensures Holds(h, now[c], At(h, Difference(s, t), c))
    {
      AtDifference(h, s, t, c);
      CellTests(h, Difference(s, t), c);
      MinusHolds(h, a[c], b[c], At(h, s, c), At(h, t, c));
    }
  }

  // ---------- the DDigest exchange ----------

  datatype Wire = Wire(count: int, keySum: Key, keyCheck: Key)

  function Wired(cell: Cell): Wire {
    Wire(cell.count, cell.keySum, cell.keyCheck)
  }

  function Unwired(w: Wire): Cell {
    Cell(w.count, w.keySum, w.keyCheck, [ZERO])
  }

  /** A key with the dummy value. */
  function KeyEntry(k: Key): Entry {
    Entry(k, [ZERO], true)
  }

  ghost function KeyEntries(keys: set<Key>): set<Entry> {
    set k | k in keys :: KeyEntry(k)
  }

  lemma {:induction false} ValuesSumToZero(h: Shape, t: set<Entry>)
    requires h.valueSize == 1 && forall e :: e in t ==> e.value == [ZERO]
    ensures Total(h, t).value == [ZERO]
    decreases |t|
  {
    if t == {} {
      assert Zeros(1) == [ZERO];
    } else {
      var e :| e in t;
      ValuesSumToZero(h, t - {e});
      TotalRemove(h, t, e);
      XorZero(ZERO);
    }
  }

  /** A table of keys survives the wire: what is not sent is zero. */
  lemma WiredHolds(h: Shape, table: seq<Cell>, now: seq<Cell>, s: set<Entry>)
    requires TableHolds(h, table, s) && h.valueSize == 1 && forall e :: e in s ==> e.value == [ZERO]
    requires |now| == |table| && forall c :: 0 <= c < |now| ==> now[c] == Unwired(Wired(table[c]))
    ensures TableHolds(h, now, s)
  {
    forall c | 0 <= c < |now|
      ensures Holds(h, now[c], At(h, s, c))
    {
      ValuesSumToZero(h, At(h, s, c));
      assert Holds(h, table[c], At(h, s, c));
    }
  }
}
