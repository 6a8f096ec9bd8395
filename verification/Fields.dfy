/**
 Lists of numbers of given widths in a bit stream.
 */
module Fields {
  import opened Arithmetic
  import opened Bits
  import opened BitStream

  function FieldBits(vs: seq<nat>, ws: seq<nat>): seq<bool>
    requires |vs| == |ws|
  {
    if vs == [] then [] else FieldBits(vs[..|vs| - 1], ws[..|ws| - 1]) + ToBits(vs[|vs| - 1], ws[|ws| - 1])
  }

  function TotalWidth(ws: seq<nat>): nat {
    if ws == [] then 0 else TotalWidth(ws[..|ws| - 1]) + ws[|ws| - 1]
  }

  /** n equal widths. */
  function Widths(w: nat, n: nat): (r: seq<nat>)
    ensures |r| == n && forall i :: 0 <= i < n ==> r[i] == w
  {
    seq(n, _ => w)
  }

  ghost predicate Narrow(vs: seq<nat>, ws: seq<nat>)
    requires |vs| == |ws|
  {
    forall i :: 0 <= i < |vs| ==> vs[i] < Pow2(ws[i])
  }

  /** What is left of each value in its width: the value modulo 2^width. */
  function Truncated(vs: seq<nat>, ws: seq<nat>): (r: seq<nat>)
    requires |vs| == |ws|
    ensures |r| == |vs|
  {
    seq(|vs|, i requires 0 <= i < |vs| => Value(ToBits(vs[i], ws[i])))
  }

  lemma NarrowTruncated(vs: seq<nat>, ws: seq<nat>)
    requires |vs| == |ws|
    ensures Narrow(Truncated(vs, ws), ws)
    ensures Narrow(vs, ws) ==> Truncated(vs, ws) == vs
  {
    forall i | 0 <= i < |vs|
      ensures Truncated(vs, ws)[i] < Pow2(ws[i]) && (vs[i] < Pow2(ws[i]) ==> Truncated(vs, ws)[i] == vs[i])
    {
      ValueBits(vs[i], ws[i]);
    }
  }

  lemma {:induction false} TotalEqualWidths(w: nat, n: nat)
    ensures TotalWidth(Widths(w, n)) == Area(w, n)
  {
    if n == 0 {
    } else {
      TotalEqualWidths(w, n - 1);
      assert Widths(w, n)[..n - 1] == Widths(w, n - 1);
    }
  }

  lemma {:induction false} TotalMonotone(ws: seq<nat>, k: nat)
    requires k <= |ws|
    ensures TotalWidth(ws[..k]) <= TotalWidth(ws)
    decreases |ws|
  {
    if k < |ws| {
      TotalMonotone(ws[..|ws| - 1], k);
      assert ws[..|ws| - 1][..k] == ws[..k];
    } else {
      assert ws[..k] == ws;
    }
  }

  lemma {:induction false} FieldBitsLength(vs: seq<nat>, ws: seq<nat>)
    requires |vs| == |ws|
    ensures |FieldBits(vs, ws)| == TotalWidth(ws)
  {
    if vs == [] {
    } else {
      FieldBitsLength(vs[..|vs| - 1], ws[..|ws| - 1]);
    }
  }

  lemma FieldBitsSnoc(vs: seq<nat>, ws: seq<nat>, v: nat, w: nat)
    requires |vs| == |ws|
    ensures FieldBits(vs + [v], ws + [w]) == FieldBits(vs, ws) + ToBits(v, w)
    ensures TotalWidth(ws + [w]) == TotalWidth(ws) + w
  {
    assert (vs + [v])[..|vs|] == vs && (ws + [w])[..|ws|] == ws;
  }

  lemma ConcatInjective<T>(a: seq<T>, b: seq<T>, c: seq<T>, d: seq<T>)
    requires a + b == c + d && |a| == |c|
    ensures a == c && b == d
  {
    assert a == (a + b)[..|a|] && b == (a + b)[|a|..];
    assert c == (c + d)[..|c|] && d == (c + d)[|c|..];
  }

  /** Narrow lists of the same widths with the same bits are equal. */
  lemma {:induction false} FieldBitsInjective(vs: seq<nat>, us: seq<nat>, ws: seq<nat>)
    requires |vs| == |us| == |ws| && Narrow(vs, ws) && Narrow(us, ws) && FieldBits(vs, ws) == FieldBits(us, ws)
    ensures vs == us
  {
    if vs == [] {
    } else {
      var k := |vs| - 1;
      var init := ws[..k];
      FieldBitsLength(vs[..k], init);
      FieldBitsLength(us[..k], init);
      ConcatInjective(FieldBits(vs[..k], init), ToBits(vs[k], ws[k]), FieldBits(us[..k], init), ToBits(us[k], ws[k]));
      FieldBitsInjective(vs[..k], us[..k], init);
      ValueBits(vs[k], ws[k]);
      ValueBits(us[k], ws[k]);
      assert vs == vs[..k] + [vs[k]] && us == us[..k] + [us[k]];
    }
  }

  lemma {:induction false} TruncatedBits(vs: seq<nat>, ws: seq<nat>)
    requires |vs| == |ws|
    ensures FieldBits(Truncated(vs, ws), ws) == FieldBits(vs, ws)
  {
    if vs == [] {
    } else {
      var k := |vs| - 1;
      TruncatedBits(vs[..k], ws[..k]);
      assert Truncated(vs, ws)[..k] == Truncated(vs[..k], ws[..k]);
      BitsValue(ToBits(vs[k], ws[k]));
    }
  }

  method WriteFields(writer: BitWriter, vs: seq<nat>, ws: seq<nat>)
    requires |vs| == |ws| && writer.Valid() && writer.Fits(TotalWidth(ws))
    modifies writer, writer.out
    ensures writer.Valid() && writer.Content() == old(writer.Content()) + FieldBits(vs, ws)
    ensures 8 * (writer.pos - writer.start) + writer.offset
            == old(8 * (writer.pos - writer.start) + writer.offset) + TotalWidth(ws)
    ensures writer.Unchanged(old(writer.pos), writer.pos, old(writer.out[..]))
  {
    var i := 0;
    ghost var before, was, p0 := writer.Content(), writer.out[..], writer.pos;
    ghost var bits0 := 8 * (writer.pos - writer.start) + writer.offset;
    NothingMore(before);
    while i < |vs|
      invariant i <= |vs| && writer.Valid() && writer.Content() == before + FieldBits(vs[..i], ws[..i])
      invariant 8 * (writer.pos - writer.start) + writer.offset == bits0 + TotalWidth(ws[..i])
      invariant writer.Unchanged(p0, writer.pos, was)
    {
      TotalMonotone(ws, i + 1);
      Concat3(before, FieldBits(vs[..i], ws[..i]), ToBits(vs[i], ws[i]));
      assert vs[..i + 1] == vs[..i] + [vs[i]] && ws[..i + 1] == ws[..i] + [ws[i]];
      FieldBitsSnoc(vs[..i], ws[..i], vs[i], ws[i]);
      writer.Write(vs[i], ws[i]);
      i := i + 1;
    }
    assert vs[..i] == vs && ws[..i] == ws;
  }

  lemma NothingMore(b: seq<bool>)
    ensures b + [] == b && [] + b == b
  {
  }

  /** The values read so far are the first fields of all bits, and `left` are the others. */
  ghost predicate ReadUpTo(vs: seq<nat>, ws: seq<nat>, all: seq<bool>, left: seq<bool>) {
    |vs| == |ws| && Narrow(vs, ws) && all == FieldBits(vs, ws) + left
  }

  lemma TotalNext(ws: seq<nat>, i: nat)
    requires i < |ws|
    ensures TotalWidth(ws[..i]) + ws[i] <= TotalWidth(ws)
  {
    TotalMonotone(ws, i + 1);
    assert ws[..i + 1][..i] == ws[..i];
  }

  /** There is enough left for the next field. */
  lemma EnoughLeft(vs: seq<nat>, ws: seq<nat>, i: nat, all: seq<bool>, left: seq<bool>)
    requires i < |ws| && ReadUpTo(vs, ws[..i], all, left) && TotalWidth(ws) <= |all|
    ensures ws[i] <= |left|
  {
    TotalNext(ws, i);
    FieldBitsLength(vs, ws[..i]);
    assert |all| == |FieldBits(vs, ws[..i])| + |left|;
  }

  /** Reading one more field. */
  lemma ReadMore(vs: seq<nat>, ws: seq<nat>, all: seq<bool>, left: seq<bool>, v: nat, w: nat)
    requires ReadUpTo(vs, ws, all, left) && w <= |left| && v == Value(left[..w])
    ensures ReadUpTo(vs + [v], ws + [w], all, left[w..])
  {
    BitsValue(left[..w]);
    assert left == left[..w] + left[w..];
    FieldBitsSnoc(vs, ws, v, w);
    Concat3(FieldBits(vs, ws), ToBits(v, w), left[w..]);
  }

  method ReadFields(reader: BitReader, ws: seq<nat>) returns (vs: seq<nat>)
    requires reader.Valid() && TotalWidth(ws) <= |reader.Remaining()|
    modifies reader
    ensures reader.Valid() && |vs| == |ws| && Narrow(vs, ws)
    ensures old(reader.Remaining()) == FieldBits(vs, ws) + reader.Remaining()
  {
    vs := [];
    ghost var all := reader.Remaining();
    NothingMore(all);
    var i := 0;
    while i < |ws|
      invariant i <= |ws| && reader.Valid() && ReadUpTo(vs, ws[..i], all, reader.Remaining())
    {
      ghost var left := reader.Remaining();
      EnoughLeft(vs, ws, i, all, left);
      var v := reader.Read(ws[i]);
      ReadMore(vs, ws[..i], all, left, v, ws[i]);
      assert ws[..i + 1] == ws[..i] + [ws[i]];
      vs := vs + [v];
      i := i + 1;
    }
    assert ws[..i] == ws;
  }

  /** Write two lists from the start of a buffer and flush: exactly the least number of bytes that hold
      the bits is used, and the rest of the buffer is left alone. */
  method WriteLists(to: array<Byte>, vs: seq<nat>, ws: seq<nat>, us: seq<nat>, xs: seq<nat>) returns (n: nat)
    requires |vs| == |ws| && |us| == |xs| && BytesFor(TotalWidth(ws) + TotalWidth(xs)) <= to.Length
    modifies to
    ensures n == BytesFor(TotalWidth(ws) + TotalWidth(xs)) <= to.Length
    ensures BytesBits(to[..n])
            == FieldBits(vs, ws) + FieldBits(us, xs) + Falses(Padding(TotalWidth(ws) + TotalWidth(xs)))
    ensures forall i :: n <= i < to.Length ==> to[i] == old(to[i])
  {
    var writer := new BitWriter(to, 0);
    ghost var total := TotalWidth(ws) + TotalWidth(xs);
    RoomFor(total);
    WriteFields(writer, vs, ws);
    NothingMore(FieldBits(vs, ws));
    WriteFields(writer, us, xs);
    ByteCount(writer.pos, writer.offset, total);
    assert writer.Content() == FieldBits(vs, ws) + FieldBits(us, xs);
    writer.Flush();
    n := writer.pos;
    NothingPending(writer.state, BytesBits(to[..n]));
    assert to[0..n] == to[..n];
  }

  method WriteBuffer(vs: seq<nat>, ws: seq<nat>) returns (bytes: seq<Byte>)
    requires |vs| == |ws|
    ensures |bytes| == BytesFor(TotalWidth(ws))
    ensures BytesBits(bytes) == FieldBits(vs, ws) + Falses(Padding(TotalWidth(ws)))
  {
    var buffer := new Byte[BytesFor(TotalWidth(ws))](_ => 0);
    var n := WriteLists(buffer, vs, ws, [], []);
    NothingMore(FieldBits(vs, ws));
    bytes := buffer[..];
    assert buffer[..n] == bytes;
  }

  lemma RoomFor(total: nat)
    ensures total < 8 * BytesFor(total) + 8
  {
  }

  /** Where a writer stands after `total` bits. */
  lemma ByteCount(pos: nat, offset: nat, total: nat)
    requires 8 * pos + offset == total && offset < 8
    ensures BytesFor(total) == pos + (if offset > 0 then 1 else 0)
    ensures Padding(offset) == Padding(total)
  {
  }

  /** For any sequence of values and widths, reading back what was written and flushed gives each value
      modulo 2^width. */
  method StreamRoundTrip(vs: seq<nat>, ws: seq<nat>) returns (bytes: seq<Byte>, back: seq<nat>)
    requires |vs| == |ws|
    ensures |bytes| == BytesFor(TotalWidth(ws))
    ensures back == Truncated(vs, ws)
    ensures Narrow(vs, ws) ==> back == vs
  {
    bytes := WriteBuffer(vs, ws);
    FieldBitsLength(vs, ws);
    var reader := new BitReader(bytes);
    back := ReadFields(reader, ws);
    FieldBitsLength(back, ws);
    ConcatInjective(FieldBits(back, ws), reader.Remaining(), FieldBits(vs, ws), Falses(Padding(TotalWidth(ws))));
    TruncatedBits(vs, ws);
    NarrowTruncated(vs, ws);
    FieldBitsInjective(back, Truncated(vs, ws), ws);
  }

  // ---------- equal widths ----------

  /** Equally wide numbers, one after another. */
  function PackedBits(ids: seq<nat>, b: nat): seq<bool> {
    if ids == [] then [] else PackedBits(ids[..|ids| - 1], b) + ToBits(ids[|ids| - 1], b)
  }

  lemma {:induction false} PackedBitsAreFields(ids: seq<nat>, b: nat)
    ensures FieldBits(ids, Widths(b, |ids|)) == PackedBits(ids, b)
  {
    if ids == [] {
    } else {
      var k := |ids| - 1;
      PackedBitsAreFields(ids[..k], b);
      assert Widths(b, |ids|)[..k] == Widths(b, k);
    }
  }

  lemma {:induction false} PackedBitsLength(ids: seq<nat>, b: nat)
    ensures |PackedBits(ids, b)| == Area(b, |ids|)
  {
    if ids == [] {
    } else {
      PackedBitsLength(ids[..|ids| - 1], b);
    }
  }

  /** The i-th number is found at the bits from Area(b, i) on. */
  lemma {:induction false} PackedAt(ids: seq<nat>, b: nat, i: nat)
    requires i < |ids|
    ensures Area(b, i + 1) <= |PackedBits(ids, b)|
    ensures PackedBits(ids, b)[Area(b, i)..Area(b, i + 1)] == ToBits(ids[i], b)
  {
    var k := |ids| - 1;
    PackedBitsLength(ids[..k], b);
    if i == k {
    } else {
      PackedAt(ids[..k], b, i);
      SliceOfFirst(PackedBits(ids[..k], b), ToBits(ids[k], b), Area(b, i), Area(b, i + 1));
    }
  }

  lemma SliceOfFirst<T>(a: seq<T>, b: seq<T>, i: nat, j: nat)
    requires i <= j <= |a|
    ensures (a + b)[i..j] == a[i..j]
  {
  }

  /** ... also when other bits follow or come before. */
  lemma FieldAt(before: seq<bool>, ids: seq<nat>, after: seq<bool>, b: nat, i: nat, at: nat)
    requires i < |ids| && ids[i] < Pow2(b) && at == |before| + Area(b, i)
    ensures var all := before + PackedBits(ids, b) + after; at + b <= |all| && Value(all[at..at + b]) == ids[i]
  {
    PackedAt(ids, b, i);
    ValueBits(ids[i], b);
    SliceWithin(before, PackedBits(ids, b), after, Area(b, i), Area(b, i + 1));
  }

  lemma FirstField(ids: seq<nat>, after: seq<bool>, all: seq<bool>, b: nat, i: nat, at: nat)
    requires i < |ids| && ids[i] < Pow2(b) && at == Area(b, i) && all == PackedBits(ids, b) + after
    ensures at + b <= |all| && Value(all[at..at + b]) == ids[i]
  {
    FieldAt([], ids, after, b, i, at);
    assert [] + PackedBits(ids, b) == PackedBits(ids, b);
  }

  lemma SliceWithin<T>(a: seq<T>, b: seq<T>, c: seq<T>, i: nat, j: nat)
    requires i <= j <= |b|
    ensures (a + b + c)[|a| + i..|a| + j] == b[i..j]
  {
  }

  lemma PackedBitsSnoc(ids: seq<nat>, v: nat, b: nat)
    ensures PackedBits(ids + [v], b) == PackedBits(ids, b) + ToBits(v, b)
  {
    assert (ids + [v])[..|ids|] == ids;
  }

  lemma {:induction false} PackedBitsConcat(s: seq<nat>, t: seq<nat>, b: nat)
    ensures PackedBits(s + t, b) == PackedBits(s, b) + PackedBits(t, b)
  {
    if t == [] {
      assert s + t == s;
    } else {
      var k := |t| - 1;
      PackedBitsConcat(s, t[..k], b);
      assert (s + t)[..|s + t| - 1] == s + t[..k];
      Concat3(PackedBits(s, b), PackedBits(t[..k], b), ToBits(t[k], b));
    }
  }
}
