/**
 `PbsDecodingMessage` on the wire: all counts, then all bins.
 */
module DecodingCodec {
  import opened Arithmetic
  import opened Bits
  import opened BitStream
  import opened Fields
  import opened PbsSpec

  function Codes(counts: seq<int>, flag: nat): (r: seq<nat>)
    ensures |r| == |counts|
  {
    seq(|counts|, i requires 0 <= i < |counts| => if counts[i] < 0 then flag else counts[i])
  }

  function Uncode(code: nat, flag: nat): int {
    if code == flag then -1 else code
  }

  /** Counts that can be told from the failure flag, and as many bins as they announce. */
  ghost predicate Sendable(counts: seq<int>, diffs: seq<nat>, flag: nat, m: nat) {
    && (forall i :: 0 <= i < |counts| ==> -1 <= counts[i] < flag)
    && |diffs| == Offset(counts, |counts|)
    && forall i :: 0 <= i < |diffs| ==> diffs[i] < Pow2(m)
  }

  lemma CodesInjective(counts: seq<int>, other: seq<int>, flag: nat)
    requires |counts| == |other| && Codes(counts, flag) == Codes(other, flag)
    requires forall i :: 0 <= i < |counts| ==> -1 <= counts[i] < flag && -1 <= other[i] < flag
    ensures counts == other
  {
    forall i | 0 <= i < |counts|
      ensures counts[i] == other[i]
    {
      assert Codes(counts, flag)[i] == Codes(other, flag)[i];
    }
  }

  lemma CodesNarrow(counts: seq<int>, d: nat)
    requires forall i :: 0 <= i < |counts| ==> -1 <= counts[i] < Pow2(d) - 1
    ensures Narrow(Codes(counts, Pow2(d) - 1), Widths(d, |counts|))
  {
  }

  function Uncodes(codes: seq<nat>, flag: nat): (counts: seq<int>)
    ensures |counts| == |codes|
  {
    seq(|codes|, i requires 0 <= i < |codes| => Uncode(codes[i], flag))
  }

  lemma UncodesCodes(codes: seq<nat>, d: nat)
    requires Narrow(codes, Widths(d, |codes|))
    ensures Codes(Uncodes(codes, Pow2(d) - 1), Pow2(d) - 1) == codes
    ensures var counts := Uncodes(codes, Pow2(d) - 1);
            Pow2(d) > 1 ==> forall i :: 0 <= i < |counts| ==> -1 <= counts[i] < Pow2(d) - 1
  {
  }

  class PbsDecodingMessage {
    const m: nat        // field_sz
    const t: nat        // capacity
    const g: nat        // num_groups
    const d: nat        // sizeof_each_d
    const flag: nat     // decoding_failure_flag
    var counts: seq<int>
    var diffs: seq<nat>

    constructor (fieldSize: nat, capacity: nat, groups: nat)
      ensures m == fieldSize && t == capacity && g == groups && Valid() && d == CeilLog2(capacity + 2)
      ensures forall i :: 0 <= i < g ==> counts[i] == 0
    {
      m, t, g := fieldSize, capacity, groups;
      d := CeilLog2(capacity + 2);
      flag := Pow2(CeilLog2(capacity + 2)) - 1;
      counts := seq(groups, _ => 0);
      diffs := seq(Area(capacity, groups), _ => 0);
    }

    /** The flag is larger than any count up to the capacity. */
    ghost predicate Valid()
      reads this
    {
      flag == Pow2(d) - 1 && t < flag && |counts| == g && d == CeilLog2(t + 2)
    }

    function TotalBits(): nat
      reads this
    {
      Area(d, g) + Area(m, |diffs|)
    }

    function SerializedSize(): nat
      reads this
    {
      BytesFor(TotalBits())
    }

    ghost function CountBits(): seq<bool>
      reads this
    {
      FieldBits(Codes(counts, flag), Widths(d, |counts|))
    }

    ghost function MessageBits(): seq<bool>
      reads this
    {
      CountBits() + FieldBits(diffs, Widths(m, |diffs|))
    }

    /** Exactly SerializedSize() bytes are written, and they hold the message's bits. */
    method Write(to: array<Byte>) returns (n: nat)
      requires Valid() && SerializedSize() <= to.Length
      modifies to
      ensures n == SerializedSize()
      ensures BytesBits(to[..n]) == MessageBits() + Falses(Padding(TotalBits()))
      ensures forall i :: n <= i < to.Length ==> to[i] == old(to[i])
    {
      TotalEqualWidths(d, |counts|);
      TotalEqualWidths(m, |diffs|);
      n := WriteLists(to, Codes(counts, flag), Widths(d, |counts|), diffs, Widths(m, |diffs|));
    }

    /** Where a buffer with this message holds the i-th count, and where the i-th bin. */
    lemma CountAt(bits: seq<bool>, i: nat)
      requires Valid() && MessageBits() <= bits && i < g && -1 <= counts[i] <= t
      ensures d * i + d <= |bits|
      ensures Value(bits[d * i..d * i + d]) == if counts[i] < 0 then Pow2(d) - 1 else counts[i]
    {
      var bins := FieldBits(diffs, Widths(m, |diffs|));
      PackedBitsAreFields(Codes(counts, flag), d);
      AreaIsProduct(d, i);
      FirstField(Codes(counts, flag), bins + bits[|MessageBits()|..], bits, d, i, d * i);
    }

    lemma BinAt(bits: seq<bool>, i: nat)
      requires Valid() && MessageBits() <= bits && i < |diffs| && diffs[i] < Pow2(m)
      ensures d * g + m * i + m <= |bits| && Value(bits[d * g + m * i..d * g + m * i + m]) == diffs[i]
    {
      var rest := bits[|MessageBits()|..];
      PackedBitsAreFields(diffs, m);
      CountLength();
      AreaIsProduct(d, g);
      AreaIsProduct(m, i);
      FieldAt(CountBits(), diffs, rest, m, i, d * g + m * i);
      SplitBits(CountBits(), PackedBits(diffs, m), [], bits);
    }

    lemma CountLength()
      requires Valid()
      ensures |CountBits()| == Area(d, g)
    {
      FieldBitsLength(Codes(counts, flag), Widths(d, |counts|));
      TotalEqualWidths(d, |counts|);
    }

    method ReadCounts(reader: BitReader)
      requires Valid() && reader.Valid() && Area(d, g) <= |reader.Remaining()|
      modifies reader, this`counts
      ensures Valid() && reader.Valid() && old(reader.Remaining()) == CountBits() + reader.Remaining()
      ensures forall i :: 0 <= i < g ==> -1 <= counts[i] < flag
    {
      TotalEqualWidths(d, g);
      var codes := ReadFields(reader, Widths(d, g));
      UncodesCodes(codes, d);
      counts := Uncodes(codes, flag);
    }

    method ReadBins(reader: BitReader)
      requires reader.Valid() && Area(m, |diffs|) <= |reader.Remaining()|
      modifies reader, this`diffs
      ensures |diffs| == |old(diffs)| && forall i :: 0 <= i < |diffs| ==> diffs[i] < Pow2(m)
      ensures reader.Valid() && old(reader.Remaining()) == FieldBits(diffs, Widths(m, |diffs|)) + reader.Remaining()
    {
      TotalEqualWidths(m, |diffs|);
      diffs := ReadFields(reader, Widths(m, |diffs|));
    }

    /** What a buffer starts with is what is read from it; -1 if it is too short for the bins announced. */
    method Parse(from: seq<Byte>) returns (n: int)
      requires Valid() && Area(d, g) <= 8 * |from|
      modifies this`counts, this`diffs
      ensures Valid() && |diffs| == Offset(counts, |counts|)
      ensures CountBits() <= BytesBits(from) && forall i :: 0 <= i < g ==> -1 <= counts[i] < flag
      ensures n == if SerializedSize() <= |from| then SerializedSize() else -1
      ensures n >= 0 ==> Sendable(counts, diffs, flag, m) && MessageBits() <= BytesBits(from)
    {
      BytesLength(from);
      var reader := new BitReader(from);
      ReadCounts(reader);
      diffs := seq(Offset(counts, |counts|), _ => 0);
      if SerializedSize() > |from| {
        return -1;
      }
      n := SerializedSize();
      CountLength();
      RoomIn(TotalBits(), |from|);
      ghost var left := reader.Remaining();
      ReadBins(reader);
      Concat3(CountBits(), FieldBits(diffs, Widths(m, |diffs|)), reader.Remaining());
    }
  }

  lemma SplitBits(a: seq<bool>, b: seq<bool>, c: seq<bool>, bits: seq<bool>)
    requires a + b + c <= bits
    ensures bits == a + b + (c + bits[|a + b + c|..])
  {
  }

  lemma RoomIn(total: nat, bytes: nat)
    requires BytesFor(total) <= bytes
    ensures total <= 8 * bytes
  {
  }

  lemma FirstPart<T>(a: seq<T>, b: seq<T>, all: seq<T>)
    requires a + b <= all
    ensures a <= all
  {
    assert (a + b)[..|a|] == a;
  }

  lemma UniqueCounts(a: PbsDecodingMessage, b: PbsDecodingMessage, bits: seq<bool>)
    requires a.Valid() && b.Valid() && a.g == b.g && a.t == b.t
    requires forall i :: 0 <= i < a.g ==> -1 <= a.counts[i] < a.flag
    requires forall i :: 0 <= i < b.g ==> -1 <= b.counts[i] < b.flag
    requires a.CountBits() <= bits && b.CountBits() <= bits
    ensures a.counts == b.counts
  {
    CodesNarrow(a.counts, a.d);
    CodesNarrow(b.counts, b.d);
    var ws := Widths(a.d, a.g);
    FieldBitsLength(Codes(a.counts, a.flag), ws);
    FieldBitsLength(Codes(b.counts, b.flag), ws);
    PrefixEqual(a.CountBits(), b.CountBits(), bits);
    FieldBitsInjective(Codes(a.counts, a.flag), Codes(b.counts, b.flag), ws);
    CodesInjective(a.counts, b.counts, a.flag);
  }

  /** Two messages at the start of the same bit string are the same. */
  lemma UniqueDecoding(a: PbsDecodingMessage, b: PbsDecodingMessage, bits: seq<bool>)
    requires a.Valid() && b.Valid() && a.g == b.g && a.t == b.t && a.m == b.m
    requires Sendable(a.counts, a.diffs, a.flag, a.m) && Sendable(b.counts, b.diffs, b.flag, b.m)
    requires a.MessageBits() <= bits && b.MessageBits() <= bits
    ensures a.counts == b.counts && a.diffs == b.diffs
  {
    var xs := Widths(a.m, |a.diffs|);
    FirstPart(a.CountBits(), FieldBits(a.diffs, Widths(a.m, |a.diffs|)), bits);
    FirstPart(b.CountBits(), FieldBits(b.diffs, Widths(b.m, |b.diffs|)), bits);
    UniqueCounts(a, b, bits);
    FieldBitsLength(a.diffs, xs);
    FieldBitsLength(b.diffs, xs);
    PrefixEqual(a.MessageBits(), b.MessageBits(), bits);
    ConcatInjective(a.CountBits(), FieldBits(a.diffs, xs), b.CountBits(), FieldBits(b.diffs, xs));
    FieldBitsInjective(a.diffs, b.diffs, xs);
  }

  /** The d bits of the i-th count: the count, or all ones for a failure. */
  ghost predicate CountFieldIs(bits: seq<bool>, i: nat, count: int, d: nat) {
    d * i + d <= |bits| && Value(bits[d * i..d * i + d]) == if count < 0 then Pow2(d) - 1 else count
  }

  ghost predicate CountsAt(bits: seq<bool>, counts: seq<int>, d: nat) {
    forall i: nat :: i < |counts| ==> CountFieldIs(bits, i, counts[i], d)
  }

  /** The m bits of the i-th bin, behind all counts. */
  ghost predicate BinFieldIs(bits: seq<bool>, i: nat, bin: nat, m: nat, start: nat) {
    start + m * i + m <= |bits| && Value(bits[start + m * i..start + m * i + m]) == bin
  }

  ghost predicate BinsAt(bits: seq<bool>, bins: seq<nat>, m: nat, start: nat) {
    forall i: nat :: i < |bins| ==> BinFieldIs(bits, i, bins[i], m, start)
  }

  lemma FieldsPlaced(sent: PbsDecodingMessage, bits: seq<bool>)
    requires sent.Valid() && sent.MessageBits() <= bits
    requires forall i :: 0 <= i < sent.g ==> -1 <= sent.counts[i] <= sent.t
    requires forall i :: 0 <= i < |sent.diffs| ==> sent.diffs[i] < Pow2(sent.m)
    ensures CountsAt(bits, sent.counts, sent.d) && BinsAt(bits, sent.diffs, sent.m, sent.d * sent.g)
  {
    forall i: nat | i < sent.g
      ensures CountFieldIs(bits, i, sent.counts[i], sent.d)
    {
      sent.CountAt(bits, i);
    }
    forall i: nat | i < |sent.diffs|
      ensures BinFieldIs(bits, i, sent.diffs[i], sent.m, sent.d * sent.g)
    {
      sent.BinAt(bits, i);
    }
  }

  /** A message written to a buffer of its size. */
  method Send(sent: PbsDecodingMessage) returns (bytes: seq<Byte>)
    requires sent.Valid()
    ensures |bytes| == sent.SerializedSize() && sent.MessageBits() <= BytesBits(bytes)
    ensures Area(sent.d, sent.g) <= 8 * |bytes|
  {
    var buffer := new Byte[sent.SerializedSize()](_ => 0);
    var n := sent.Write(buffer);
    bytes := buffer[..];
    assert buffer[..n] == bytes;
    RoomIn(sent.TotalBits(), |bytes|);
  }

  /** Any decode results of at most t bins a group survive the wire, failures included. */
  method RoundTrip(m: nat, t: nat, counts: seq<int>, diffs: seq<nat>)
    returns (bytes: seq<Byte>, received: PbsDecodingMessage)
    requires forall i :: 0 <= i < |counts| ==> -1 <= counts[i] <= t
    requires |diffs| == Offset(counts, |counts|) && forall i :: 0 <= i < |diffs| ==> diffs[i] < Pow2(m)
    ensures received.counts == counts && received.diffs == diffs
    ensures CountsAt(BytesBits(bytes), counts, CeilLog2(t + 2))
    ensures BinsAt(BytesBits(bytes), diffs, m, CeilLog2(t + 2) * |counts|)
    ensures |bytes| == received.SerializedSize()
    ensures var bits := CeilLog2(t + 2) * |counts| + m * |diffs|; bits <= 8 * |bytes| < bits + 8
  {
    AreaIsProduct(CeilLog2(t + 2), |counts|);
    AreaIsProduct(m, |diffs|);
    var sent := new PbsDecodingMessage(m, t, |counts|);
    sent.counts, sent.diffs := counts, diffs;
    bytes := Send(sent);
    FieldsPlaced(sent, BytesBits(bytes));
    received := new PbsDecodingMessage(m, t, |counts|);
    var k := received.Parse(bytes);
    FirstPart(sent.CountBits(), FieldBits(diffs, Widths(m, |diffs|)), BytesBits(bytes));
    UniqueCounts(sent, received, BytesBits(bytes));
    UniqueDecoding(sent, received, BytesBits(bytes));
  }
}
