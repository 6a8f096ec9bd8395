/**
 `PbsEncodingHintMessage` on the wire: group ids, ended by a zero or by the end of the buffer.
 */
module HintCodec {
  import opened Wrappers
  import opened Arithmetic
  import opened Bits
  import opened BitStream
  import opened Fields

  /** The ids among the fields from index i on: a zero ends the list, except in first place. */
  function Scan(fields: seq<nat>, range: nat, i: nat): Result<seq<nat>>
    requires i <= |fields|
    decreases |fields| - i
  {
    if i == |fields| || (fields[i] == 0 && i > 0) then Ok([])
    else if fields[i] >= range then Err(OutOfRange)
    else
      match Scan(fields, range, i + 1)
      case Ok(rest) => Ok([fields[i]] + rest)
      case Err(e) => Err(e)
  }

  /** How many whole fields a buffer of n bytes holds. */
  function FieldCount(n: nat, b: nat): nat
    requires 0 < b
  {
    Div(8 * n, b)
  }

  class PbsEncodingHintMessage {
    const maxRange: nat
    const bitsEach: nat
    var ids: seq<nat>    // groups_with_exceptions

    ghost predicate Valid()
      reads this
    {
      1 <= maxRange && bitsEach == CeilLog2(maxRange)
    }

    constructor (range: nat)
      requires 1 <= range
      ensures Valid() && maxRange == range && ids == []
    {
      maxRange, bitsEach, ids := range, CeilLog2(range), [];
    }

    method AddGroupId(gid: nat) returns (r: Result<()>)
      modifies this`ids
      ensures r == if gid < maxRange then Ok(()) else Err(OutOfRange)
      ensures ids == if gid < maxRange then old(ids) + [gid] else old(ids)
    {
      if gid >= maxRange {
        return Err(OutOfRange);
      }
      ids := ids + [gid];
      return Ok(());
    }

    function SerializedSize(): nat
      reads this
    {
      BytesFor(Area(bitsEach, |ids|))
    }

    method Write(to: array<Byte>) returns (n: nat)
      requires Valid() && SerializedSize() <= to.Length
      modifies to
      ensures n == SerializedSize()
      ensures BytesBits(to[..n]) == PackedBits(ids, bitsEach) + Falses(Padding(Area(bitsEach, |ids|)))
      ensures forall i :: n <= i < to.Length ==> to[i] == old(to[i])
    {
      TotalEqualWidths(bitsEach, |ids|);
      n := WriteLists(to, ids, Widths(bitsEach, |ids|), [], []);
      NothingMore(FieldBits(ids, Widths(bitsEach, |ids|)));
      PackedBitsAreFields(ids, bitsEach);
    }

    /** An empty buffer adds nothing; otherwise the fields of the buffer are scanned and added. (With zero bits an id,
        the source divides by zero unless the buffer is empty.) */
    method Parse(from: seq<Byte>) returns (r: Result<nat>)
      requires Valid() && (from == [] || 0 < bitsEach)
      modifies this`ids
      ensures Received(maxRange, from).Ok? ==> r == Ok(|from|) && ids == old(ids) + Received(maxRange, from).value
      ensures Received(maxRange, from).Err? ==> r == Err(OutOfRange)
    {
      if |from| == 0 {
        return Ok(0);
      }
      r := ParseFields(from);
    }

    /** The next id, which is the next whole field of the buffer. */
    method ReadId(reader: BitReader, ghost fields: seq<nat>, i: nat, ghost all: seq<bool>) returns (gid: nat)
      requires reader.Valid() && i < |fields| && StartsWith(all, fields, bitsEach)
      requires all == PackedBits(fields[..i], bitsEach) + reader.Remaining()
      modifies reader
      ensures reader.Valid() && gid == fields[i]
      ensures all == PackedBits(fields[..i + 1], bitsEach) + reader.Remaining()
    {
      FieldComesNext(fields, bitsEach, i, all, reader.Remaining());
      gid := reader.Read(bitsEach);
    }

    method ParseFields(from: seq<Byte>) returns (r: Result<nat>)
      requires Valid() && from != [] && 0 < bitsEach
      modifies this`ids
      ensures Received(maxRange, from).Ok? ==> r == Ok(|from|) && ids == old(ids) + Received(maxRange, from).value
      ensures Received(maxRange, from).Err? ==> r == Err(OutOfRange)
    {
      var reader := new BitReader(from);
      NothingMore(BytesBits(from));
      ghost var fields := FieldsOf(from, bitsEach);
      var ok := ScanFields(reader, FieldCount(|from|, bitsEach), fields, BytesBits(from));
      r := if ok then Ok(|from|) else Err(OutOfRange);
    }

    /** The loop of parse. */
    method ScanFields(reader: BitReader, count: nat, ghost fields: seq<nat>, ghost all: seq<bool>) returns (ok: bool)
      requires count == |fields| && StartsWith(all, fields, bitsEach)
      requires reader.Valid() && reader.Remaining() == all
      modifies reader, this`ids
      ensures if ok then Prepend(old(ids), Scan(fields, maxRange, 0)) == Ok(ids)
              else Scan(fields, maxRange, 0) == Err(OutOfRange)
    {
      var i := 0;
      ghost var got: seq<nat> := [];
      assert ids + got == ids;
      NothingMore(all);
      PrependNone(Scan(fields, maxRange, 0));
      while i < count
        invariant i <= count && reader.Valid()
        invariant all == PackedBits(fields[..i], bitsEach) + reader.Remaining()
        invariant ids == old(ids) + got && Scan(fields, maxRange, 0) == Prepend(got, Scan(fields, maxRange, i))
      {
        var gid := ReadId(reader, fields, i, all);
        ScanAt(fields, maxRange, got, i);
        if gid == 0 && i > 0 {
          return true;
        }
        if gid >= maxRange {
          return false;
        }
        ids := ids + [gid];
        got := got + [gid];
        i := i + 1;
      }
      PrependEnd(got);
      ok := true;
    }
  }

  /** What the receiver makes of a buffer. */
  ghost function Received(range: nat, from: seq<Byte>): Result<seq<nat>>
    requires 1 <= range && (from == [] || 0 < CeilLog2(range))
  {
    if from == [] then Ok([]) else Scan(FieldsOf(from, CeilLog2(range)), range, 0)
  }

  function Prepend(ids: seq<nat>, r: Result<seq<nat>>): Result<seq<nat>> {
    match r
    case Ok(rest) => Ok(ids + rest)
    case Err(e) => Err(e)
  }

  lemma PrependNone(r: Result<seq<nat>>)
    ensures Prepend([], r) == r && (r.Ok? ==> Prepend(r.value, Ok([])) == r)
  {
    if r.Ok? {
      assert [] + r.value == r.value && r.value + [] == r.value;
    }
  }

  lemma PrependEnd(ids: seq<nat>)
    ensures Prepend(ids, Ok([])) == Ok(ids)
  {
    assert ids + [] == ids;
  }

  /** What the field at index i makes of the ids so far. */
  lemma ScanAt(fields: seq<nat>, range: nat, ids: seq<nat>, i: nat)
    requires i < |fields|
    ensures Prepend(ids, Scan(fields, range, i))
         == if fields[i] == 0 && i > 0 then Ok(ids)
            else if fields[i] >= range then Err(OutOfRange)
            else Prepend(ids + [fields[i]], Scan(fields, range, i + 1))
  {
    if fields[i] == 0 && i > 0 {
      PrependEnd(ids);
    } else if fields[i] < range {
      PrependMore(ids, fields[i], Scan(fields, range, i + 1));
    }
  }

  lemma PrependMore(ids: seq<nat>, gid: nat, r: Result<seq<nat>>)
    ensures Prepend(ids, Prepend([gid], r)) == Prepend(ids + [gid], r)
  {
    if r.Ok? {
      Concat3(ids, [gid], r.value);
    }
  }

  /** Where the ids end: at the first zero after the first place, or with the fields. */
  ghost predicate EndsAt(fields: seq<nat>, i: nat, z: nat) {
    && i <= z <= |fields| && (z < |fields| ==> z > 0 && fields[z] == 0)
    && forall j :: i <= j < z ==> j == 0 || fields[j] != 0
  }

  /** Scanning gives the fields up to there, or an error if one of them is out of range. */
  lemma {:induction false} ScanMeans(fields: seq<nat>, range: nat, i: nat, z: nat)
    requires EndsAt(fields, i, z)
    ensures Scan(fields, range, i)
         == if forall j :: i <= j < z ==> fields[j] < range then Ok(fields[i..z]) else Err(OutOfRange)
    decreases z - i
  {
    if i == z {
      assert fields[i..z] == [];
    } else {
      ScanMeans(fields, range, i + 1, z);
      assert fields[i..z] == [fields[i]] + fields[i + 1..z];
    }
  }

  /** The bit string starts with these fields. */
  ghost predicate StartsWith(all: seq<bool>, fields: seq<nat>, b: nat) {
    && Below(fields, Pow2(b)) && Area(b, |fields|) <= |all|
    && all == PackedBits(fields, b) + all[Area(b, |fields|)..]
  }

  /** The whole fields of a buffer. */
  ghost function FieldsOf(from: seq<Byte>, b: nat): (fields: seq<nat>)
    requires 0 < b
    ensures |fields| == FieldCount(|from|, b) && StartsWith(BytesBits(from), fields, b)
  {
    BytesLength(from);
    DivMod(8 * |from|, b);
    CutFields(BytesBits(from), b, FieldCount(|from|, b))
  }

  /** There are as many fields as fit. */
  lemma FieldsFit(from: seq<Byte>, b: nat)
    requires 0 < b
    ensures b * |FieldsOf(from, b)| <= 8 * |from| < b * |FieldsOf(from, b)| + b
  {
    DivMod(8 * |from|, b);
    AreaIsProduct(b, |FieldsOf(from, b)|);
  }

  /** Field i is read from the bits at b * i. */
  lemma FieldsAre(from: seq<Byte>, b: nat, i: nat, at: nat)
    requires 0 < b && i < |FieldsOf(from, b)| && at == b * i
    ensures at + b <= |BytesBits(from)| && FieldsOf(from, b)[i] == Value(BytesBits(from)[at..at + b])
  {
    AreaIsProduct(b, i);
    CutAt(BytesBits(from), FieldsOf(from, b), b, i, at);
  }

  lemma CutAt(bits: seq<bool>, fields: seq<nat>, b: nat, i: nat, at: nat)
    requires StartsWith(bits, fields, b) && i < |fields| && at == Area(b, i)
    ensures at + b <= |bits| && fields[i] == Value(bits[at..at + b])
  {
    FirstField(fields, bits[Area(b, |fields|)..], bits, b, i, at);
  }

  ghost function CutFields(bits: seq<bool>, b: nat, n: nat): (fields: seq<nat>)
    requires Area(b, n) <= |bits|
    ensures |fields| == n && StartsWith(bits, fields, b)
  {
    if n == 0 then []
    else
      var init := CutFields(bits, b, n - 1);
      CutStep(init, b, bits);
      init + [Value(bits[Area(b, n - 1)..][..b])]
  }

  lemma CutStep(init: seq<nat>, b: nat, bits: seq<bool>)
    requires StartsWith(bits, init, b) && Area(b, |init|) + b <= |bits|
    ensures StartsWith(bits, init + [Value(bits[Area(b, |init|)..][..b])], b)
  {
    var k := Area(b, |init|);
    var rest := bits[k..];
    var v := Value(rest[..b]);
    BitsValue(rest[..b]);
    PackedBitsSnoc(init, v, b);
    CutRest(PackedBits(init, b), ToBits(v, b), bits, k);
  }

  lemma CutRest<T>(a: seq<T>, x: seq<T>, all: seq<T>, k: nat)
    requires k + |x| <= |all| && all == a + all[k..] && all[k..][..|x|] == x
    ensures all == (a + x) + all[k + |x|..]
  {
    assert |a| == k;
    assert all[k..] == x + all[k + |x|..];
    Concat3(a, x, all[k + |x|..]);
  }

  /** The bits after the first i fields start with the next one. */
  lemma FieldComesNext(fields: seq<nat>, b: nat, i: nat, all: seq<bool>, now: seq<bool>)
    requires i < |fields| && StartsWith(all, fields, b) && all == PackedBits(fields[..i], b) + now
    ensures b <= |now| && Value(now[..b]) == fields[i]
    ensures all == PackedBits(fields[..i + 1], b) + now[b..]
  {
    var more := PackedBits(fields[i + 1..], b);
    var rest := all[Area(b, |fields|)..];
    var next := ToBits(fields[i], b);
    assert fields[..i + 1] == fields[..i] + [fields[i]] && fields == fields[..i + 1] + fields[i + 1..];
    PackedBitsSnoc(fields[..i], fields[i], b);
    PackedBitsConcat(fields[..i + 1], fields[i + 1..], b);
    NextOf(PackedBits(fields[..i], b), next, more, rest, now);
    ValueBits(fields[i], b);
  }

  lemma NextOf<T>(a: seq<T>, x: seq<T>, more: seq<T>, rest: seq<T>, now: seq<T>)
    requires ((a + x) + more) + rest == a + now
    ensures |x| <= |now| && now[..|x|] == x && a + now == (a + x) + now[|x|..]
  {
    assert ((a + x) + more) + rest == a + (x + (more + rest));
    ConcatInjective(a, x + (more + rest), a, now);
    Concat3(a, x, now[|x|..]);
  }

  lemma {:induction false} ValueFalse(bits: seq<bool>)
    requires forall i :: 0 <= i < |bits| ==> !bits[i]
    ensures Value(bits) == 0
  {
    if bits == [] {
    } else {
      ValueFalse(bits[1..]);
    }
  }

  // ---------- round trip ----------

  /** The buffer `Write` leaves for these ids. */
  ghost predicate Sent(ids: seq<nat>, b: nat, bytes: seq<Byte>) {
    && |bytes| == BytesFor(Area(b, |ids|))
    && BytesBits(bytes) == PackedBits(ids, b) + Falses(Padding(Area(b, |ids|)))
  }

  /** How long the buffer is. */
  lemma SentSize(ids: seq<nat>, b: nat, bytes: seq<Byte>)
    requires Sent(ids, b, bytes)
    ensures b * |ids| <= 8 * |bytes| < b * |ids| + 8
  {
    AreaIsProduct(b, |ids|);
  }

  /** Where it holds the i-th id. */
  lemma SentAt(ids: seq<nat>, b: nat, bytes: seq<Byte>, i: nat)
    requires Sent(ids, b, bytes) && i < |ids| && ids[i] < Pow2(b)
    ensures b * i + b <= |BytesBits(bytes)| && Value(BytesBits(bytes)[b * i..b * i + b]) == ids[i]
  {
    AreaIsProduct(b, i);
    FirstField(ids, Falses(Padding(Area(b, |ids|))), BytesBits(bytes), b, i, b * i);
  }

  /** The first fields of a buffer that starts with other fields are those fields. */
  lemma {:induction false} FirstFields(ids: seq<nat>, fields: seq<nat>, b: nat, all: seq<bool>, rest: seq<bool>, i: nat)
    requires i <= |ids| <= |fields| && Below(ids, Pow2(b)) && StartsWith(all, fields, b)
             && all == PackedBits(ids, b) + rest
    ensures fields[..i] == ids[..i]
  {
    if i == 0 {
    } else {
      FirstFields(ids, fields, b, all, rest, i - 1);
      var k := i - 1;
      assert ids[..i] == ids[..k] + [ids[k]] && fields[..i] == fields[..k] + [fields[k]];
      var now := PackedBits(ids[k..], b) + rest;
      assert ids == ids[..k] + ids[k..];
      PackedBitsConcat(ids[..k], ids[k..], b);
      Concat3(PackedBits(ids[..k], b), PackedBits(ids[k..], b), rest);
      FieldComesNext(fields, b, k, all, now);
      PackedBitsLength(ids, b);
      assert all[Area(b, |ids|)..] == rest;
      FieldComesNext(ids, b, k, all, now);
    }
  }

  /** Fields after the ids lie in the padding. */
  lemma LaterFields(ids: seq<nat>, fields: seq<nat>, b: nat, all: seq<bool>, pad: nat, i: nat)
    requires |ids| <= i < |fields| && StartsWith(all, fields, b) && all == PackedBits(ids, b) + Falses(pad)
    ensures fields[i] == 0
  {
    var k := Area(b, i);
    assert fields == fields[..i] + fields[i..];
    PackedBitsConcat(fields[..i], fields[i..], b);
    var now := PackedBits(fields[i..], b) + all[Area(b, |fields|)..];
    Concat3(PackedBits(fields[..i], b), PackedBits(fields[i..], b), all[Area(b, |fields|)..]);
    FieldComesNext(fields, b, i, all, now);
    PackedBitsLength(fields[..i], b);
    PackedBitsLength(ids, b);
    AreaMonotone(b, |ids|, i);
    assert now == all[k..];
    ValueFalse(now[..b]);
  }

  /** The receiver sees the ids, and then only zeros. */
  lemma SentFields(ids: seq<nat>, range: nat, bytes: seq<Byte>)
    requires 1 <= range && Below(ids, range) && 0 < CeilLog2(range) && Sent(ids, CeilLog2(range), bytes)
    ensures var fields := FieldsOf(bytes, CeilLog2(range));
            |ids| <= |fields| && fields[..|ids|] == ids && forall i :: |ids| <= i < |fields| ==> fields[i] == 0
  {
    var b := CeilLog2(range);
    var fields, pad := FieldsOf(bytes, b), Padding(Area(b, |ids|));
    EnoughFields(b, |ids|, |bytes|);
    FirstFields(ids, fields, b, BytesBits(bytes), Falses(pad), |ids|);
    assert ids[..|ids|] == ids;
    forall i | |ids| <= i < |fields|
      ensures fields[i] == 0
    {
      LaterFields(ids, fields, b, BytesBits(bytes), pad, i);
    }
  }

  lemma EnoughFields(b: nat, k: nat, n: nat)
    requires 0 < b && n == BytesFor(Area(b, k))
    ensures k <= FieldCount(n, b)
  {
    DivMod(8 * n, b);
    var c := FieldCount(n, b);
    if c < k {
      AreaMonotone(b, c + 1, k);
    }
  }

  /** Scanning ids that are followed by zeros. */
  lemma {:induction false} ScanIds(fields: seq<nat>, ids: seq<nat>, range: nat, i: nat)
    requires i <= |ids| <= |fields| && fields[..|ids|] == ids && Below(ids, range)
    requires forall j :: |ids| <= j < |fields| ==> fields[j] == 0
    requires ids != [] && forall j :: 0 < j < |ids| ==> ids[j] != 0
    ensures Scan(fields, range, i) == Ok(ids[i..])
    decreases |ids| - i
  {
    if i == |ids| {
      assert i == |fields| || (fields[i] == 0 && i > 0);
      assert ids[i..] == [];
    } else {
      assert fields[i] == fields[..|ids|][i] == ids[i];
      ScanIds(fields, ids, range, i + 1);
      assert Scan(fields, range, i) == Ok([fields[i]] + ids[i + 1..]);
      assert ids[i..] == [ids[i]] + ids[i + 1..];
    }
  }

  lemma {:induction false} ScanStops(fields: seq<nat>, range: nat, i: nat, z: nat)
    requires i <= z < |fields| && 0 < z && fields[z] == 0
    ensures Scan(fields, range, i).Ok? ==> |Scan(fields, range, i).value| <= z - i
    decreases z - i
  {
    if i == z {
    } else {
      ScanStops(fields, range, i + 1, z);
    }
  }

  /** When a hint survives the wire: exactly if it is empty, or ids take at least one bit and none but the
      first is zero. With a single group (range 1) an id takes no bits and is lost. */
  lemma HintRoundTrip(ids: seq<nat>, range: nat, bytes: seq<Byte>)
    requires 1 <= range && Below(ids, range) && Sent(ids, CeilLog2(range), bytes)
    ensures bytes == [] || 0 < CeilLog2(range)
    ensures Received(range, bytes) == Ok(ids)
            <==> (ids == [] || (2 <= range && forall i :: 0 < i < |ids| ==> ids[i] != 0))
  {
    var b := CeilLog2(range);
    if b == 0 {
      AreaOfNothing(|ids|);
    } else if ids != [] {
      AreaMonotone(b, 1, |ids|);
      assert Area(b, 1) == b;
      SentFields(ids, range, bytes);
      var fields := FieldsOf(bytes, b);
      if forall i :: 0 < i < |ids| ==> ids[i] != 0 {
        ScanIds(fields, ids, range, 0);
      } else {
        var z :| 0 < z < |ids| && ids[z] == 0;
        assert fields[z] == ids[z];
        ScanStops(fields, range, 0, z);
      }
    }
  }

  /** Increasing ids, as the protocol sends them, arrive unless there was a single group; then nothing does. */
  lemma IncreasingHint(ids: seq<nat>, range: nat, bytes: seq<Byte>)
    requires 1 <= range && Below(ids, range) && Sent(ids, CeilLog2(range), bytes)
    requires forall i, j :: 0 <= i < j < |ids| ==> ids[i] < ids[j]
    ensures bytes == [] || 0 < CeilLog2(range)
    ensures Received(range, bytes) == Ok(if range == 1 then [] else ids)
  {
    HintRoundTrip(ids, range, bytes);
    if range == 1 {
      assert CeilLog2(1) == 0;
      AreaOfNothing(|ids|);
    } else {
      assert forall i :: 0 < i < |ids| ==> ids[0] < ids[i];
    }
  }

  /** A hint sent and received. */
  method Deliver(ids: seq<nat>, range: nat) returns (received: seq<nat>)
    requires 1 <= range && Below(ids, range) && forall i, j :: 0 <= i < j < |ids| ==> ids[i] < ids[j]
    ensures received == if range == 1 then [] else ids
  {
    var sent := new PbsEncodingHintMessage(range);
    var i := 0;
    while i < |ids|
      invariant i <= |ids| && sent.Valid() && sent.maxRange == range && sent.ids == ids[..i]
    {
      var added := sent.AddGroupId(ids[i]);
      i := i + 1;
    }
    assert ids[..i] == ids;
    var buffer := new Byte[sent.SerializedSize()](_ => 0);
    var n := sent.Write(buffer);
    assert buffer[..n] == buffer[..];
    IncreasingHint(ids, range, buffer[..]);
    var got := new PbsEncodingHintMessage(range);
    var r := got.Parse(buffer[..]);
    received := got.ids;
  }
}
