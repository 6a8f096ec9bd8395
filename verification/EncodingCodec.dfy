/**
 `PbsEncodingMessage` on the wire: the whole bytes of every sketch, then the remaining bits of every sketch.

 A sketch is the string of its m * t bits (t field elements of m bits each): k whole bytes and r more bits.
 */
module EncodingCodec {
  import opened Arithmetic
  import opened Bits
  import opened BitStream
  import opened Fields

  // ---------- one sketch ----------

  function ByteAt(bits: seq<bool>, i: nat): Byte
    requires 8 * i + 8 <= |bits|
  {
    BitsValue(bits[8 * i..8 * i + 8]);
    SmallWidth(8);
    Value(bits[8 * i..8 * i + 8])
  }

  function WholeBytes(bits: seq<bool>, k: nat): (r: seq<Byte>)
    requires 8 * k <= |bits|
    ensures |r| == k
  {
    seq(k, i requires 0 <= i < k => ByteAt(bits, i))
  }

  /** The bits after the whole bytes, as a number. */
  function Rest(bits: seq<bool>, k: nat): Byte
    requires 8 * k <= |bits| < 8 * k + 8
  {
    BitsValue(bits[8 * k..]);
    SmallWidth(|bits| - 8 * k);
    Value(bits[8 * k..])
  }

  /** minisketch_serialize. */
  function Serialize(bits: seq<bool>, k: nat): (bytes: seq<Byte>)
    requires 8 * k <= |bits| < 8 * k + 8
  {
    WholeBytes(bits, k) + (if |bits| > 8 * k then [Rest(bits, k)] else [])
  }

  /** minisketch_deserialize: the n low bits of the buffer. */
  function Deserialize(bytes: seq<Byte>, n: nat): (bits: seq<bool>)
    requires n <= 8 * |bytes|
    ensures |bits| == n
  {
    BytesLength(bytes);
    BytesBits(bytes)[..n]
  }

  /** One more byte. */
  lemma WholeBytesStep(bits: seq<bool>, k: nat, init: seq<Byte>, b: Byte)
    requires 8 * k + 8 <= |bits| && BytesBits(init) == bits[..8 * k] && ToBits(b, 8) == bits[8 * k..8 * k + 8]
    ensures BytesBits(init + [b]) == bits[..8 * k + 8]
  {
    BytesSnoc(init, b);
    JoinSlices(bits, 8 * k, 8 * k + 8);
  }

  lemma {:induction false} WholeBytesBits(bits: seq<bool>, k: nat)
    requires 8 * k <= |bits|
    ensures BytesBits(WholeBytes(bits, k)) == bits[..8 * k]
  {
    if k == 0 {
    } else {
      var init, b := WholeBytes(bits, k - 1), ByteAt(bits, k - 1);
      WholeBytesBits(bits, k - 1);
      BitsValue(bits[8 * k - 8..8 * k]);
      WholeBytesStep(bits, k - 1, init, b);
      assert WholeBytes(bits, k) == init + [b];
    }
  }

  lemma JoinSlices<T>(s: seq<T>, i: nat, j: nat)
    requires i <= j <= |s|
    ensures s[..i] + s[i..j] == s[..j]
  {
  }

  lemma {:induction false} BytesInjective(a: seq<Byte>, b: seq<Byte>)
    requires |a| == |b| && BytesBits(a) == BytesBits(b)
    ensures a == b
  {
    if a == [] {
    } else {
      var k := |a| - 1;
      BytesLength(a[..k]);
      BytesLength(b[..k]);
      ConcatInjective(BytesBits(a[..k]), ToBits(a[k], 8), BytesBits(b[..k]), ToBits(b[k], 8));
      BytesInjective(a[..k], b[..k]);
      assert Pow2(8) == 256;
      ValueBits(a[k], 8);
      ValueBits(b[k], 8);
      assert a == a[..k] + [a[k]] && b == b[..k] + [b[k]];
    }
  }

  /** What a parser makes of the whole bytes of a sketch and the number it read for the remaining bits. */
  lemma DeserializeParts(whole: seq<Byte>, rest: Byte, r: nat)
    requires r < 8 && rest < Pow2(r)
    ensures var k := |whole|;
            var bits := Deserialize(whole + [rest], 8 * k + r);
            WholeBytes(bits, k) == whole && bits[8 * k..] == ToBits(rest, r)
  {
    var k := |whole|;
    var bits := Deserialize(whole + [rest], 8 * k + r);
    BytesLength(whole);
    BytesSnoc(whole, rest);
    SliceOfSum(BytesBits(whole), ToBits(rest, 8), r);
    assert ToBits(rest, 8)[..r] == ToBits(rest, r);
    WholeBytesBits(bits, k);
    BytesInjective(WholeBytes(bits, k), whole);
  }

  lemma SliceOfSum<T>(a: seq<T>, b: seq<T>, r: nat)
    requires r <= |b|
    ensures (a + b)[..|a| + r] == a + b[..r] && (a + b)[..|a| + r][..|a|] == a && (a + b)[..|a| + r][|a|..] == b[..r]
  {
  }

  lemma SketchParts(a: seq<bool>, b: seq<bool>, k: nat)
    requires 8 * k <= |a| == |b| && WholeBytes(a, k) == WholeBytes(b, k) && a[8 * k..] == b[8 * k..]
    ensures a == b
  {
    WholeBytesBits(a, k);
    WholeBytesBits(b, k);
    assert a == a[..8 * k] + a[8 * k..] && b == b[..8 * k] + b[8 * k..];
  }

  /** Deserializing what was serialized restores the sketch. */
  lemma DeserializeSerialize(bits: seq<bool>, k: nat)
    requires 8 * k <= |bits| < 8 * k + 8
    ensures |bits| <= 8 * |Serialize(bits, k)| && Deserialize(Serialize(bits, k), |bits|) == bits
  {
    var whole := WholeBytes(bits, k);
    BytesLength(whole);
    WholeBytesBits(bits, k);
    if |bits| == 8 * k {
      assert Serialize(bits, k) == whole;
    } else {
      BitsValue(bits[8 * k..]);
      DeserializeParts(whole, Rest(bits, k), |bits| - 8 * k);
      SketchParts(Deserialize(Serialize(bits, k), |bits|), bits, k);
    }
  }

  // ---------- all sketches ----------

  ghost predicate Sized(sketches: seq<seq<bool>>, n: nat) {
    forall i :: 0 <= i < |sketches| ==> |sketches[i]| == n
  }

  /** The whole bytes of all sketches. */
  ghost function Wholes(sketches: seq<seq<bool>>, n: nat, k: nat): (r: seq<Byte>)
    requires Sized(sketches, n) && 8 * k <= n
    ensures |r| == Area(k, |sketches|)
  {
    if sketches == [] then []
    else Wholes(sketches[..|sketches| - 1], n, k) + WholeBytes(sketches[|sketches| - 1], k)
  }

  /** The remaining bits of all sketches. */
  ghost function Remainders(sketches: seq<seq<bool>>, n: nat, k: nat): (r: seq<bool>)
    requires Sized(sketches, n) && 8 * k <= n
    ensures |r| == Area(n - 8 * k, |sketches|)
  {
    if sketches == [] then []
    else Remainders(sketches[..|sketches| - 1], n, k) + sketches[|sketches| - 1][8 * k..]
  }

  lemma PartsSnoc(sketches: seq<seq<bool>>, sketch: seq<bool>, n: nat, k: nat)
    requires Sized(sketches, n) && 8 * k <= n == |sketch|
    ensures Sized(sketches + [sketch], n)
    ensures Wholes(sketches + [sketch], n, k) == Wholes(sketches, n, k) + WholeBytes(sketch, k)
    ensures Remainders(sketches + [sketch], n, k) == Remainders(sketches, n, k) + sketch[8 * k..]
  {
    assert (sketches + [sketch])[..|sketches|] == sketches;
  }

  /** The bytes of a message for these sketches: all whole bytes, then the remaining bits packed. */
  ghost predicate Layout(bytes: seq<Byte>, sketches: seq<seq<bool>>, n: nat, k: nat)
    requires Sized(sketches, n) && 8 * k <= n
  {
    var start := Area(k, |sketches|);
    start <= |bytes| && bytes[..start] == Wholes(sketches, n, k)
      && Remainders(sketches, n, k) <= BytesBits(bytes[start..])
  }

  lemma {:induction false} PartsInjective(a: seq<seq<bool>>, b: seq<seq<bool>>, n: nat, k: nat)
    requires |a| == |b| && Sized(a, n) && Sized(b, n) && 8 * k <= n
    requires Wholes(a, n, k) == Wholes(b, n, k) && Remainders(a, n, k) == Remainders(b, n, k)
    ensures a == b
  {
    if a == [] {
    } else {
      var last := |a| - 1;
      var a', b' := a[..last], b[..last];
      ConcatInjective(Wholes(a', n, k), WholeBytes(a[last], k), Wholes(b', n, k), WholeBytes(b[last], k));
      ConcatInjective(Remainders(a', n, k), a[last][8 * k..], Remainders(b', n, k), b[last][8 * k..]);
      SketchParts(a[last], b[last], k);
      PartsInjective(a', b', n, k);
      assert a == a' + [a[last]] && b == b' + [b[last]];
    }
  }

  /** A buffer is the message of at most one list of sketches. */
  lemma LayoutDetermines(bytes: seq<Byte>, a: seq<seq<bool>>, b: seq<seq<bool>>, n: nat, k: nat)
    requires |a| == |b| && Sized(a, n) && Sized(b, n) && 8 * k <= n && Layout(bytes, a, n, k) && Layout(bytes, b, n, k)
    ensures a == b
  {
    PrefixEqual(Remainders(a, n, k), Remainders(b, n, k), BytesBits(bytes[Area(k, |a|)..]));
    PartsInjective(a, b, n, k);
  }

  lemma {:induction false} WholesAt(sketches: seq<seq<bool>>, n: nat, k: nat, g: nat)
    requires Sized(sketches, n) && 8 * k <= n && g < |sketches|
    ensures Area(k, g + 1) <= Area(k, |sketches|)
    ensures Wholes(sketches, n, k)[Area(k, g)..Area(k, g + 1)] == WholeBytes(sketches[g], k)
  {
    var last := |sketches| - 1;
    if g == last {
    } else {
      WholesAt(sketches[..last], n, k, g);
      SliceOfFirst(Wholes(sketches[..last], n, k), WholeBytes(sketches[last], k), Area(k, g), Area(k, g + 1));
    }
  }

  lemma {:induction false} RemaindersAt(sketches: seq<seq<bool>>, n: nat, k: nat, g: nat)
    requires Sized(sketches, n) && 8 * k <= n && g < |sketches|
    ensures Area(n - 8 * k, g + 1) <= Area(n - 8 * k, |sketches|)
    ensures Remainders(sketches, n, k)[Area(n - 8 * k, g)..Area(n - 8 * k, g + 1)] == sketches[g][8 * k..]
  {
    var last, r := |sketches| - 1, n - 8 * k;
    if g == last {
    } else {
      RemaindersAt(sketches[..last], n, k, g);
      SliceOfFirst(Remainders(sketches[..last], n, k), sketches[last][8 * k..], Area(r, g), Area(r, g + 1));
    }
  }

  lemma WholeAt(bits: seq<bool>, k: nat, j: nat)
    requires 8 * k <= |bits| && j < k
    ensures WholeBytes(bits, k)[j] == Value(bits[8 * j..8 * j + 8])
  {
  }

  /** Where a message holds what: the j-th whole byte of sketch g is byte k * g + j, and behind all whole bytes the
      remaining r bits of sketch g are bits r * g to r * g + r. */
  lemma LayoutAt(bytes: seq<Byte>, sketches: seq<seq<bool>>, n: nat, k: nat, r: nat, g: nat, j: nat)
    requires Sized(sketches, n) && n == 8 * k + r && Layout(bytes, sketches, n, k) && g < |sketches|
    ensures k * |sketches| <= |bytes|
    ensures j < k ==> k * g + j < |bytes| && bytes[k * g + j] == Value(sketches[g][8 * j..8 * j + 8])
    ensures var packed := BytesBits(bytes[k * |sketches|..]);
            r * g + r <= |packed| && packed[r * g..r * g + r] == sketches[g][8 * k..]
  {
    AreaIsProduct(k, |sketches|);
    AreaIsProduct(k, g);
    AreaIsProduct(r, g);
    WholesAt(sketches, n, k, g);
    RemaindersAt(sketches, n, k, g);
    if j < k {
      WholeAt(sketches[g], k, j);
      assert bytes[k * g + j] == Wholes(sketches, n, k)[Area(k, g)..Area(k, g + 1)][j];
    }
    var packed := BytesBits(bytes[k * |sketches|..]);
    SliceOfFirst(Remainders(sketches, n, k), packed[|Remainders(sketches, n, k)|..], r * g, r * g + r);
  }

  /** The whole bytes and the remaining bits of g sketches fill exactly the bytes announced. */
  lemma {:induction false} TotalBytes(n: nat, k: nat, r: nat, g: nat)
    requires n == 8 * k + r
    ensures Area(n, g) == 8 * Area(k, g) + Area(r, g)
    ensures BytesFor(Area(n, g)) == Area(k, g) + BytesFor(Area(r, g))
  {
    if g == 0 {
    } else {
      TotalBytes(n, k, r, g - 1);
    }
  }

  // ---------- writing and reading ----------

  /** memcpy. */
  method CopyBytes(to: array<Byte>, at: nat, bytes: seq<Byte>)
    requires at + |bytes| <= to.Length
    modifies to
    ensures forall i :: 0 <= i < |bytes| ==> to[at + i] == bytes[i]
    ensures forall i :: 0 <= i < to.Length && !(at <= i < at + |bytes|) ==> to[i] == old(to[i])
  {
    var i := 0;
    while i < |bytes|
      invariant i <= |bytes|
      invariant forall j :: 0 <= j < i ==> to[at + j] == bytes[j]
      invariant forall j :: 0 <= j < to.Length && !(at <= j < at + i) ==> to[j] == old(to[j])
    {
      to[at + i] := bytes[i];
      i := i + 1;
    }
  }

  /** Copy behind what is there already. */
  method AppendBytes(to: array<Byte>, at: nat, bytes: seq<Byte>)
    requires at + |bytes| <= to.Length
    modifies to
    ensures to[..at + |bytes|] == old(to[..at]) + bytes
    ensures to[at + |bytes|..] == old(to[at + |bytes|..])
  {
    CopyBytes(to, at, bytes);
  }

  lemma UnchangedParts(was: seq<Byte>, now: seq<Byte>, from: nat, to: nat)
    requires |was| == |now| && from <= to <= |was|
    requires forall i :: 0 <= i < |was| && !(from <= i < to) ==> now[i] == was[i]
    ensures now[..from] == was[..from] && now[to..] == was[to..]
    ensures forall j :: 0 <= j <= from ==> now[..j] == was[..j]
  {
  }

  /** One turn of the loop of write_bad: whole bytes to their place, remaining bits to the writer. */
  method WriteSketch(writer: BitWriter, sketch: seq<bool>, k: nat, r: nat, at: nat)
    requires writer.Valid() && writer.Fits(r) && |sketch| == 8 * k + r && r < 8 && at + k <= writer.start
    modifies writer, writer.out
    ensures writer.Valid() && writer.Content() == old(writer.Content()) + sketch[8 * k..]
    ensures 8 * (writer.pos - writer.start) + writer.offset == old(8 * (writer.pos - writer.start) + writer.offset) + r
    ensures writer.out[..at + k] == old(writer.out[..at]) + WholeBytes(sketch, k)
    ensures old(writer.pos) <= writer.pos && writer.out[writer.pos..] == old(writer.out[..])[writer.pos..]
  {
    ghost var p0 := writer.pos;
    ghost var written := writer.out[writer.start..p0];
    AppendBytes(writer.out, at, WholeBytes(sketch, k));
    SameSlice(old(writer.out[..]), writer.out[..], at + k, writer.start, p0);
    assert writer.out[writer.start..p0] == written;
    ghost var copied := writer.out[..];
    BitsValue(sketch[8 * k..]);
    writer.Write(Rest(sketch, k), r);
    UnchangedParts(copied, writer.out[..], p0, writer.pos);
    SuffixKept(old(writer.out[..]), copied, at + k, writer.pos);
  }

  lemma SameSlice<T>(was: seq<T>, now: seq<T>, from: nat, i: nat, j: nat)
    requires |was| == |now| && from <= i <= j <= |was| && now[from..] == was[from..]
    ensures now[i..j] == was[i..j]
  {
    forall x | 0 <= x < j - i
      ensures now[i..j][x] == was[i..j][x]
    {
      assert now[from..][i - from + x] == was[from..][i - from + x];
    }
  }

  /** std::fill with zeros. */
  method ZeroFill(to: array<Byte>, n: nat)
    requires n <= to.Length
    modifies to
    ensures to[n..] == old(to[n..])
    ensures forall i :: 0 <= i < n ==> to[i] == 0
  {
    var i := 0;
    while i < n
      invariant i <= n
      invariant to[n..] == old(to[n..])
      invariant forall j :: 0 <= j < i ==> to[j] == 0
    {
      to[i] := 0;
      i := i + 1;
    }
  }

  lemma NothingLeft(sketch: seq<bool>, k: nat)
    requires |sketch| == 8 * k
    ensures Serialize(sketch, k) == WholeBytes(sketch, k)
  {
  }

  lemma TakeNext<T>(s: seq<T>, i: nat)
    requires i < |s|
    ensures s[..i + 1] == s[..i] + [s[i]]
  {
  }

  lemma TakeAll<T>(s: seq<T>)
    ensures s[..|s|] == s
  {
  }

  lemma SuffixKept<T>(was: seq<T>, now: seq<T>, from: nat, to: nat)
    requires |was| == |now| && from <= to <= |was| && now[from..] == was[from..]
    ensures now[to..] == was[to..]
  {
    SameSlice(was, now, from, to, |was|);
    assert now[to..] == now[to..|now|] && was[to..] == was[to..|was|];
  }

  /** A message written: the layout, zero bits up to the last of its n bytes, and nothing else touched. */
  ghost predicate Written(was: seq<Byte>, now: seq<Byte>, sketches: seq<seq<bool>>, size: nat, k: nat, r: nat, n: nat)
    requires Sized(sketches, size) && size == 8 * k + r
  {
    var start := Area(k, |sketches|);
    && start <= n <= |now| == |was|
    && now[..start] == Wholes(sketches, size, k)
    && BytesBits(now[start..n]) == Remainders(sketches, size, k) + Falses(Padding(Area(r, |sketches|)))
    && now[n..] == was[n..]
  }

  lemma WrittenLayout(was: seq<Byte>, now: seq<Byte>, sketches: seq<seq<bool>>, size: nat, k: nat, r: nat, n: nat)
    requires Sized(sketches, size) && size == 8 * k + r && Written(was, now, sketches, size, k, r, n)
    ensures Layout(now[..n], sketches, size, k)
  {
    var start := Area(k, |sketches|);
    assert now[..n][..start] == now[..start] && now[..n][start..] == now[start..n];
  }

  /** write_good: serialize every sketch to its place. */
  method WriteGood(to: array<Byte>, sketches: seq<seq<bool>>, size: nat, k: nat)
    requires size == 8 * k && Sized(sketches, size) && Area(k, |sketches|) <= to.Length
    modifies to
    ensures Written(old(to[..]), to[..], sketches, size, k, 0, Area(k, |sketches|))
  {
    var i := 0;
    ghost var was := to[..];
    while i < |sketches|
      invariant i <= |sketches| && Area(k, i) <= Area(k, |sketches|)
      invariant to[..Area(k, i)] == Wholes(sketches[..i], size, k)
      invariant to[Area(k, i)..] == was[Area(k, i)..]
    {
      AreaMonotone(k, i + 1, |sketches|);
      TakeNext(sketches, i);
      PartsSnoc(sketches[..i], sketches[i], size, k);
      NothingLeft(sketches[i], k);
      ghost var before := to[..];
      AppendBytes(to, Area(k, i), Serialize(sketches[i], k));
      SuffixKept(was, before, Area(k, i), Area(k, i + 1));
      i := i + 1;
    }
    TakeAll(sketches);
    AreaOfNothing(|sketches|);
  }

  /** The first i sketches are written. */
  ghost predicate Progress(writer: BitWriter, sketches: seq<seq<bool>>, i: nat, size: nat, k: nat, r: nat)
    requires size == 8 * k + r && r < 8 && Sized(sketches, size) && i <= |sketches|
    reads writer, writer.out
  {
    && Area(k, i) <= writer.start && writer.Valid()
    && writer.Content() == Remainders(sketches[..i], size, k)
    && writer.out[..Area(k, i)] == Wholes(sketches[..i], size, k)
    && 8 * (writer.pos - writer.start) + writer.offset == Area(r, i)
  }

  method WriteNext(writer: BitWriter, sketches: seq<seq<bool>>, i: nat, size: nat, k: nat, r: nat)
    requires size == 8 * k + r && r < 8 && Sized(sketches, size) && i < |sketches|
    requires Progress(writer, sketches, i, size, k, r) && writer.start == Area(k, |sketches|)
    requires writer.start + BytesFor(Area(r, |sketches|)) <= writer.out.Length
    modifies writer, writer.out
    ensures Progress(writer, sketches, i + 1, size, k, r)
    ensures old(writer.pos) <= writer.pos && writer.out[writer.pos..] == old(writer.out[..])[writer.pos..]
  {
    RoomFor(Area(r, |sketches|));
    AreaMonotone(k, i + 1, |sketches|);
    AreaMonotone(r, i + 1, |sketches|);
    TakeNext(sketches, i);
    PartsSnoc(sketches[..i], sketches[i], size, k);
    WriteSketch(writer, sketches[i], k, r, Area(k, i));
  }

  /** The loop of write_bad. */
  method WriteParts(writer: BitWriter, sketches: seq<seq<bool>>, size: nat, k: nat, r: nat)
    requires size == 8 * k + r && r < 8 && Sized(sketches, size)
    requires Progress(writer, sketches, 0, size, k, r) && writer.start == Area(k, |sketches|)
    requires writer.start + BytesFor(Area(r, |sketches|)) <= writer.out.Length
    modifies writer, writer.out
    ensures Progress(writer, sketches, |sketches|, size, k, r)
    ensures old(writer.pos) <= writer.pos && writer.out[writer.pos..] == old(writer.out[..])[writer.pos..]
  {
    ghost var was := writer.out[..];
    var i := 0;
    while i < |sketches|
      invariant i <= |sketches| && Progress(writer, sketches, i, size, k, r)
      invariant old(writer.pos) <= writer.pos && writer.out[writer.pos..] == was[writer.pos..]
    {
      ghost var before, p := writer.out[..], writer.pos;
      WriteNext(writer, sketches, i, size, k, r);
      SuffixKept(was, before, p, writer.pos);
      i := i + 1;
    }
  }

  /** write_bad: whole bytes to their places, remaining bits through a writer behind all of them. */
  method WriteBad(to: array<Byte>, sketches: seq<seq<bool>>, size: nat, k: nat, r: nat)
    requires size == 8 * k + r && r < 8 && Sized(sketches, size)
    requires Area(k, |sketches|) + BytesFor(Area(r, |sketches|)) <= to.Length
    modifies to
    ensures Written(old(to[..]), to[..], sketches, size, k, r, Area(k, |sketches|) + BytesFor(Area(r, |sketches|)))
  {
    var writer := new BitWriter(to, Area(k, |sketches|));
    WriteParts(writer, sketches, size, k, r);
    AllInProgress(writer, sketches, size, k, r);
    FinishParts(writer, sketches, size, k, r, old(to[..]));
  }

  lemma AllInProgress(writer: BitWriter, sketches: seq<seq<bool>>, size: nat, k: nat, r: nat)
    requires size == 8 * k + r && r < 8 && Sized(sketches, size)
    requires Progress(writer, sketches, |sketches|, size, k, r) && writer.start == Area(k, |sketches|)
    ensures writer.Valid() && writer.Content() == Remainders(sketches, size, k)
    ensures writer.out[..writer.start] == Wholes(sketches, size, k)
    ensures 8 * (writer.pos - writer.start) + writer.offset == Area(r, |sketches|)
  {
    TakeAll(sketches);
  }

  method FinishParts(writer: BitWriter, sketches: seq<seq<bool>>, size: nat, k: nat, r: nat, ghost was: seq<Byte>)
    requires size == 8 * k + r && r < 8 && Sized(sketches, size) && writer.start == Area(k, |sketches|)
    requires writer.Valid() && writer.Content() == Remainders(sketches, size, k)
    requires writer.out[..writer.start] == Wholes(sketches, size, k)
    requires 8 * (writer.pos - writer.start) + writer.offset == Area(r, |sketches|)
    requires writer.start + BytesFor(Area(r, |sketches|)) <= writer.out.Length
    requires |was| == writer.out.Length && writer.out[writer.pos..] == was[writer.pos..]
    modifies writer, writer.out
    ensures Written(was, writer.out[..], sketches, size, k, r, Area(k, |sketches|) + BytesFor(Area(r, |sketches|)))
  {
    ghost var before, p := writer.out[..], writer.pos;
    FinishRemainders(writer, Area(r, |sketches|));
    SuffixKept(was, before, p, writer.pos);
  }

  /** Tell the writer it is finished. */
  method FinishRemainders(writer: BitWriter, ghost total: nat)
    requires writer.Valid() && 8 * (writer.pos - writer.start) + writer.offset == total
    requires writer.start + BytesFor(total) <= writer.out.Length
    modifies writer, writer.out
    ensures writer.Valid() && old(writer.pos) <= writer.pos == writer.start + BytesFor(total)
    ensures BytesBits(writer.out[writer.start..writer.pos]) == old(writer.Content()) + Falses(Padding(total))
    ensures writer.out[..writer.start] == old(writer.out[..writer.start])
    ensures writer.out[writer.pos..] == old(writer.out[..])[writer.pos..]
  {
    ByteCount(writer.pos - writer.start, writer.offset, total);
    ghost var before, p := writer.out[..], writer.pos;
    writer.Flush();
    UnchangedParts(before, writer.out[..], p, writer.pos);
    NothingPending(writer.state, BytesBits(writer.out[writer.start..writer.pos]));
  }

  class PbsEncodingMessage {
    const m: nat                    // field_sz
    const t: nat                    // capacity
    const g: nat                    // num_groups
    var sketches: seq<seq<bool>>    // sketches_

    constructor (fieldSize: nat, capacity: nat, groups: nat)
      ensures m == fieldSize && t == capacity && g == groups && Valid()
    {
      m, t, g := fieldSize, capacity, groups;
      sketches := seq(groups, _ => Falses(Area(fieldSize, capacity)));
    }

    /** Bits of one sketch. */
    function SketchSize(): nat {
      Area(m, t)
    }

    ghost predicate Valid()
      reads this
    {
      |sketches| == g && Sized(sketches, SketchSize())
    }

    function SerializedSize(): int {
      if m == 0 || t == 0 || g == 0 then -1 else BytesFor(Area(SketchSize(), g))
    }

    method Write(to: array<Byte>) returns (n: nat)
      requires Valid() && 0 <= SerializedSize() <= to.Length
      modifies to
      ensures n == SerializedSize()
      ensures Written(old(to[..]), to[..], sketches, SketchSize(), SketchSize() / 8, SketchSize() % 8, n)
    {
      var k, r := SketchSize() / 8, SketchSize() % 8;
      ghost var was := to[..];
      n := SerializedSize();
      TotalBytes(SketchSize(), k, r, g);
      ZeroFill(to, n);
      assert to[n..] == was[n..];
      if r == 0 {
        AreaOfNothing(g);
        WriteGood(to, sketches, SketchSize(), k);
      } else {
        WriteBad(to, sketches, SketchSize(), k, r);
      }
    }

    /** parse: every list of sketches whose message this is, is the one read; -1 if there is too little. */
    method Parse(from: seq<Byte>) returns (n: int)
      requires Valid()
      modifies this
      ensures Valid()
      ensures n == if 0 <= SerializedSize() <= |from| then SerializedSize() else -1
      ensures n == -1 ==> sketches == old(sketches)
      ensures n != -1 ==> Layout(from[..n], sketches, SketchSize(), SketchSize() / 8)
    {
      if m == 0 || t == 0 || g == 0 {
        return -1;
      }
      n := BytesFor(Area(SketchSize(), g));
      if n > |from| {
        return -1;
      }
      var k, r := SketchSize() / 8, SketchSize() % 8;
      TotalBytes(SketchSize(), k, r, g);
      if r == 0 {
        AreaOfNothing(g);
        sketches := ParseGood(from[..n], SketchSize(), k, g);
      } else {
        sketches := ParseBad(from[..n], SketchSize(), k, r, g);
      }
    }
  }

  lemma LengthLeft<T>(a: seq<T>, b: seq<T>, all: seq<T>, r: nat)
    requires a + b == all && |a| + r <= |all|
    ensures r <= |b|
  {
  }

  /** One turn of the loop of parse_bad. */
  method ReadSketch(reader: BitReader, whole: seq<Byte>, r: nat) returns (sketch: seq<bool>)
    requires reader.Valid() && r < 8 && r <= |reader.Remaining()|
    modifies reader
    ensures reader.Valid() && |sketch| == 8 * |whole| + r && WholeBytes(sketch, |whole|) == whole
    ensures sketch[8 * |whole|..] + reader.Remaining() == old(reader.Remaining())
  {
    ghost var now := reader.Remaining();
    var rest := reader.Read(r);
    BitsValue(now[..r]);
    SmallWidth(r);
    BytesLength(whole + [rest]);
    sketch := Deserialize(whole + [rest], 8 * |whole| + r);
    DeserializeParts(whole, rest, r);
  }

  /** The sketches read so far, and what is left for the others. */
  ghost predicate ReadSoFar(from: seq<Byte>, sketches: seq<seq<bool>>, size: nat, k: nat, left: seq<bool>,
                            packed: seq<bool>)
    requires 8 * k <= size
  {
    && Sized(sketches, size) && Area(k, |sketches|) <= |from|
    && from[..Area(k, |sketches|)] == Wholes(sketches, size, k)
    && Remainders(sketches, size, k) + left == packed
  }

  lemma OneMoreRead(from: seq<Byte>, sketches: seq<seq<bool>>, sketch: seq<bool>, size: nat, k: nat, was: seq<bool>,
                    left: seq<bool>, packed: seq<bool>)
    requires 8 * k <= size == |sketch| && ReadSoFar(from, sketches, size, k, was, packed)
    requires Area(k, |sketches| + 1) <= |from|
    requires WholeBytes(sketch, k) == from[Area(k, |sketches|)..Area(k, |sketches| + 1)]
    requires sketch[8 * k..] + left == was
    ensures ReadSoFar(from, sketches + [sketch], size, k, left, packed)
  {
    PartsSnoc(sketches, sketch, size, k);
    JoinSlices(from, Area(k, |sketches|), Area(k, |sketches| + 1));
    Concat3(Remainders(sketches, size, k), sketch[8 * k..], left);
  }

  method ReadWhole(whole: seq<Byte>) returns (sketch: seq<bool>)
    ensures |sketch| == 8 * |whole| && WholeBytes(sketch, |whole|) == whole
  {
    BytesLength(whole + [0]);
    sketch := Deserialize(whole + [0], 8 * |whole|);
    DeserializeParts(whole, 0, 0);
  }

  /** parse_good. */
  method ParseGood(from: seq<Byte>, size: nat, k: nat, g: nat) returns (sketches: seq<seq<bool>>)
    requires size == 8 * k && Area(k, g) <= |from|
    ensures |sketches| == g && Sized(sketches, size) && Layout(from, sketches, size, k)
  {
    sketches := [];
    while |sketches| < g
      invariant |sketches| <= g && ReadSoFar(from, sketches, size, k, [], [])
    {
      var i := |sketches|;
      AreaMonotone(k, i + 1, g);
      var sketch := ReadWhole(from[Area(k, i)..Area(k, i + 1)]);
      OneMoreRead(from, sketches, sketch, size, k, [], [], []);
      sketches := sketches + [sketch];
    }
  }

  /** The loop of parse_bad. */
  method ReadParts(from: seq<Byte>, reader: BitReader, size: nat, k: nat, r: nat, g: nat)
    returns (sketches: seq<seq<bool>>)
    requires size == 8 * k + r && r < 8 && Area(k, g) <= |from|
    requires reader.Valid() && Area(r, g) <= |reader.Remaining()|
    modifies reader
    ensures |sketches| == g && reader.Valid()
    ensures ReadSoFar(from, sketches, size, k, reader.Remaining(), old(reader.Remaining()))
  {
    ghost var packed := reader.Remaining();
    sketches := [];
    while |sketches| < g
      invariant |sketches| <= g && reader.Valid()
      invariant ReadSoFar(from, sketches, size, k, reader.Remaining(), packed)
    {
      var i := |sketches|;
      AreaMonotone(k, i + 1, g);
      AreaMonotone(r, i + 1, g);
      ghost var was := reader.Remaining();
      LengthLeft(Remainders(sketches, size, k), was, packed, r);
      var sketch := ReadSketch(reader, from[Area(k, i)..Area(k, i + 1)], r);
      OneMoreRead(from, sketches, sketch, size, k, was, reader.Remaining(), packed);
      sketches := sketches + [sketch];
    }
  }

  /** parse_bad. */
  method ParseBad(from: seq<Byte>, size: nat, k: nat, r: nat, g: nat) returns (sketches: seq<seq<bool>>)
    requires size == 8 * k + r && 0 < r < 8 && Area(k, g) + BytesFor(Area(r, g)) <= |from|
    ensures |sketches| == g && Sized(sketches, size) && Layout(from, sketches, size, k)
  {
    var start := Area(k, g);
    var reader := new BitReader(from[start..]);
    BytesLength(from[start..]);
    sketches := ReadParts(from, reader, size, k, r, g);
  }

  /** For all m, t, g >= 1 and all sketches, parsing what was written restores every sketch. */
  method RoundTrip(m: nat, t: nat, sketches: seq<seq<bool>>) returns (bytes: seq<Byte>, received: PbsEncodingMessage)
    requires m > 0 && t > 0 && sketches != [] && Sized(sketches, Area(m, t))
    ensures |bytes| == BytesFor(Area(Area(m, t), |sketches|))
    ensures received.sketches == sketches
    ensures var bits := m * t * |sketches|; bits <= 8 * |bytes| < bits + 8
  {
    AreaIsProduct(m, t);
    AreaIsProduct(m * t, |sketches|);
    var sent := new PbsEncodingMessage(m, t, |sketches|);
    sent.sketches := sketches;
    var size, k := sent.SketchSize(), sent.SketchSize() / 8;
    var buffer := new Byte[sent.SerializedSize()](_ => 0);
    ghost var was := buffer[..];
    var n := sent.Write(buffer);
    bytes := buffer[..];
    WrittenLayout(was, bytes, sketches, size, k, sent.SketchSize() % 8, n);
    TakeAll(bytes);
    received := new PbsEncodingMessage(m, t, |sketches|);
    var parsed := received.Parse(bytes);
    LayoutDetermines(bytes, sketches, received.sketches, size, k);
  }
}
