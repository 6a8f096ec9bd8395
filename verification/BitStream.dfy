/**
 `BitWriter` and `BitReader`, proved against bit strings.
 */
module BitStream {
  import opened Bits

  /** A bit string continued with zeros to a whole number of bytes. */
  function Padding(bits: nat): nat {
    (8 - bits % 8) % 8
  }

  function Falses(k: nat): seq<bool> {
    seq(k, _ => false)
  }

  lemma Concat3<T>(a: seq<T>, b: seq<T>, c: seq<T>)
    ensures (a + b) + c == a + (b + c)
    ensures (a + (b + c))[..|a|] == a && (a + (b + c))[|a|..] == b + c
    ensures (b + c)[..|b|] == b && (b + c)[|b|..] == c
  {
  }

  lemma NothingPending(state: nat, b: seq<bool>)
    ensures b + ToBits(state, 0) == b
  {
  }

  class BitWriter {
    const out: array<Byte>
    const start: nat
    var pos: nat       // where the source's output pointer points
    var state: Byte
    var offset: nat

    ghost predicate Valid()
      reads this
    {
      start <= pos <= out.Length && offset < 8 && state < Pow2(offset)
    }

    /** All bits written so far. */
    ghost function Content(): seq<bool>
      requires Valid()
      reads this, out
    {
      BytesBits(out[start..pos]) + ToBits(state, offset)
    }

    constructor (output: array<Byte>, from: nat)
      requires from <= output.Length
      ensures Valid() && Content() == [] && out == output && start == from && pos == from && offset == 0 && state == 0
    {
      out, start, pos, state, offset := output, from, from, 0, 0;
    }

    /** There is room for the whole bytes among the pending and `width` more bits. */
    predicate Fits(width: nat)
      reads this
    {
      8 * pos + offset + width < 8 * out.Length + 8
    }

    /** `*(out++) = b`, between bytes. */
    method PutByte(b: Byte)
      requires Valid() && offset == 0 && pos < out.Length
      modifies this`pos, out
      ensures Valid() && pos == old(pos) + 1 && Content() == old(Content()) + ToBits(b, 8)
      ensures Unchanged(old(pos), pos, old(out[..]))
    {
      ghost var before := out[start..pos];
      out[pos] := b;
      pos := pos + 1;
      assert out[start..pos] == before + [b];
      BytesSnoc(before, b);
      NothingPending(state, BytesBits(before));
      NothingPending(state, BytesBits(before + [b]));
    }

    /** Nothing outside from..to differs from what it was. */
    ghost predicate Unchanged(from: nat, to: nat, was: seq<Byte>)
      reads this, out
    {
      from <= to && |was| == out.Length && forall i :: 0 <= i < out.Length && !(from <= i < to) ==> out[i] == was[i]
    }

    /** The first branch of Write: complete the pending byte and put it out. */
    method FillByte(val: nat)
      requires Valid() && pos < out.Length
      modifies this, out
      ensures Valid() && offset == 0 && pos == old(pos) + 1
      ensures Content() == old(Content()) + ToBits(val, 8 - old(offset))
      ensures Unchanged(old(pos), pos, old(out[..]))
    {
      var room := 8 - offset;
      Deposit(state, offset, val, room);
      SmallWidth(8);
      var full := Deposited(state, offset, val, room);
      Concat3(BytesBits(out[start..pos]), ToBits(state, offset), ToBits(val, room));
      offset, state := 0, 0;
      NothingPending(0, BytesBits(out[start..pos]));
      PutByte(full);
    }

    method PutLow(val: nat)
      requires Valid() && offset == 0 && pos < out.Length
      modifies this`pos, out
      ensures Valid() && pos == old(pos) + 1 && Content() == old(Content()) + ToBits(val, 8)
      ensures Unchanged(old(pos), pos, old(out[..]))
    {
      LowBits(val, 8);
      SmallWidth(8);
      PutByte(And(val, Mask(8)));
    }

    /** The loop of Write: put out whole bytes. */
    method WriteBytes(value: nat, width: nat) returns (val: nat, bits: nat)
      requires Valid() && offset == 0 && Fits(width)
      modifies this`pos, out
      ensures Valid() && bits < 8 && 8 * (pos - old(pos)) + bits == width
      ensures Content() + ToBits(val, bits) == old(Content()) + ToBits(value, width)
      ensures Unchanged(old(pos), pos, old(out[..]))
    {
      val, bits := value, width;
      ghost var whole, was := Content() + ToBits(value, width), out[..];
      while bits >= 8
        invariant Valid() && Fits(bits)
        invariant old(pos) <= pos && 8 * (pos - old(pos)) + bits == width
        invariant Content() + ToBits(val, bits) == whole
        invariant Unchanged(old(pos), pos, was)
      {
        BitsSplit(val, 8, bits - 8);
        Concat3(Content(), ToBits(val, 8), ToBits(Shr(val, 8), bits - 8));
        PutLow(val);
        val := Shr(val, 8);
        bits := bits - 8;
      }
    }

    /** Append the low `width` bits of `value`. */
    method Write(value: nat, width: nat)
      requires Valid() && Fits(width)
      modifies this, out
      ensures Valid() && Content() == old(Content()) + ToBits(value, width)
      ensures 8 * (pos - start) + offset == old(8 * (pos - start) + offset) + width
      ensures Unchanged(old(pos), pos, old(out[..]))
    {
      if width + offset < 8 {
        AddBits(value, width);
      } else {
        WriteLong(value, width);
      }
    }

    method WriteLong(value: nat, width: nat)
      requires Valid() && width + offset >= 8 && Fits(width)
      modifies this, out
      ensures Valid() && Content() == old(Content()) + ToBits(value, width)
      ensures 8 * (pos - start) + offset == old(8 * (pos - start) + offset) + width
      ensures Unchanged(old(pos), pos, old(out[..]))
    {
      var room := 8 - offset;
      ghost var before := Content();
      BitsSplit(value, room, width - room);
      Concat3(before, ToBits(value, room), ToBits(Shr(value, room), width - room));
      FillByte(value);
      assert Content() + ToBits(Shr(value, room), width - room) == before + ToBits(value, width);
      var val, bits := WriteBytes(Shr(value, room), width - room);
      AddBits(val, bits);
    }

    /** The last line of Write: keep fewer than 8 bits pending. */
    method AddBits(val: nat, bits: nat)
      requires Valid() && offset + bits < 8
      modifies this`state, this`offset
      ensures Valid() && offset == old(offset) + bits && Content() == old(Content()) + ToBits(val, bits)
    {
      Deposit(state, offset, val, bits);
      SmallWidth(offset + bits);
      state := Deposited(state, offset, val, bits);
      offset := offset + bits;
    }

    /** Put out the pending bits, padded with zeros. */
    method Flush()
      requires Valid() && (offset > 0 ==> pos < out.Length)
      modifies this, out
      ensures Valid() && offset == 0 && pos == old(pos) + (if old(offset) > 0 then 1 else 0)
      ensures Content() == old(Content()) + Falses(Padding(old(offset)))
      ensures Unchanged(old(pos), pos, old(out[..]))
    {
      if offset > 0 {
        BitsSplit(state, offset, 8 - offset);
        ShrSmall(state, offset);
        BitsZero(8 - offset);
        Concat3(BytesBits(out[start..pos]), ToBits(state, offset), Falses(8 - offset));
        var last := state;
        state, offset := 0, 0;
        NothingPending(0, BytesBits(out[start..pos]));
        PutByte(last);
      }
    }
  }

  /** A byte torn into its low bits and the rest. */
  lemma Torn(c: Byte, bits: nat, rest: seq<bool>)
    requires 0 < bits < 8
    ensures And(c, Mask(bits)) < Pow2(bits) && Shr(c, bits) < Pow2(8 - bits) <= 256
    ensures ToBits(And(c, Mask(bits)), bits) + (ToBits(Shr(c, bits), 8 - bits) + rest) == ToBits(c, 8) + rest
  {
    assert Pow2(8) == 256;
    Withdraw(c, bits, 8 - bits);
    SmallWidth(8 - bits);
    Concat3(ToBits(c, bits), ToBits(Shr(c, bits), 8 - bits), rest);
  }

  /** w more bits on top of k bits. */
  lemma Stacked(low: nat, k: nat, c: nat, w: nat, rest: seq<bool>)
    requires low < Pow2(k) && c < Pow2(w)
    ensures Or(low, Shl(c, k)) < Pow2(k + w)
    ensures ToBits(Or(low, Shl(c, k)), k + w) + rest == ToBits(low, k) + (ToBits(c, w) + rest)
  {
    Extend(low, k, c, w);
    Concat3(ToBits(low, k), ToBits(c, w), rest);
  }

  class BitReader {
    const input: seq<Byte>
    var pos: nat
    var state: Byte
    var offset: nat

    ghost predicate Valid()
      reads this
    {
      pos <= |input| && offset < 8 && state < Pow2(offset)
    }

    /** The bits not yet read. */
    ghost function Remaining(): seq<bool>
      requires Valid()
      reads this
    {
      ToBits(state, offset) + BytesBits(input[pos..])
    }

    constructor (bytes: seq<Byte>)
      ensures Valid() && input == bytes && Remaining() == BytesBits(bytes)
    {
      input, pos, state, offset := bytes, 0, 0, 0;
    }

    method TakeByte() returns (b: Byte)
      requires Valid() && pos < |input|
      modifies this`pos
      ensures Valid() && pos == old(pos) + 1 && BytesBits(input[old(pos)..]) == ToBits(b, 8) + BytesBits(input[pos..])
    {
      BytesCons(input[pos..]);
      b := input[pos];
      assert input[pos..][1..] == input[pos + 1..];
      pos := pos + 1;
    }

    /** The fast path: all bits are in the pending byte. */
    method ReadPending(bits: nat) returns (r: nat)
      requires Valid() && bits <= offset
      modifies this`state, this`offset
      ensures Valid() && r == Value(old(Remaining())[..bits]) && Remaining() == old(Remaining())[bits..]
    {
      Withdraw(state, bits, offset - bits);
      SmallWidth(offset - bits);
      Concat3(ToBits(state, bits), ToBits(Shr(state, bits), offset - bits), BytesBits(input[pos..]));
      r := And(state, Mask(bits));
      state := Shr(state, bits);
      offset := offset - bits;
    }

    /** The last `bits` < 8 bits of a value, and the rest of their byte as the new pending bits. */
    method ReadLast(bits: nat) returns (low: nat)
      requires Valid() && offset == 0 && 0 < bits < 8 && pos < |input|
      modifies this
      ensures Valid() && low < Pow2(bits) && ToBits(low, bits) + Remaining() == old(Remaining())
    {
      NothingPending(state, BytesBits(input[pos..]));
      var c := TakeByte();
      Torn(c, bits, BytesBits(input[pos..]));
      low := And(c, Mask(bits));
      state := Shr(c, bits);
      offset := 8 - bits;
    }

    /** One more byte on top of the `k` bits in `low`. */
    method TakeOnto(low: nat, k: nat) returns (r: nat)
      requires Valid() && pos < |input| && low < Pow2(k)
      modifies this`pos
      ensures Valid() && pos == old(pos) + 1 && r < Pow2(k + 8)
      ensures ToBits(r, k + 8) + BytesBits(input[pos..]) == ToBits(low, k) + BytesBits(input[old(pos)..])
    {
      var c := TakeByte();
      assert Pow2(8) == 256;
      Stacked(low, k, c, 8, BytesBits(input[pos..]));
      r := Or(low, Shl(c, k));
    }

    /** The loop of Read: take whole bytes on top of the `k` bits already in `low`. */
    method ReadBytes(low: nat, k: nat, bits: nat) returns (r: nat, got: nat)
      requires Valid() && offset == 0 && state == 0 && low < Pow2(k) && k <= bits <= k + 8 * (|input| - pos)
      modifies this`pos
      ensures Valid() && got <= bits < got + 8 && bits <= got + 8 * (|input| - pos) && r < Pow2(got)
      ensures ToBits(r, got) + Remaining() == ToBits(low, k) + old(Remaining())
    {
      r, got := low, k;
      NothingPending(state, BytesBits(input[pos..]));
      assert Remaining() == BytesBits(input[pos..]);
      ghost var all := ToBits(low, k) + Remaining();
      while got + 8 <= bits
        invariant Valid() && offset == 0 && state == 0
        invariant k <= got <= bits <= got + 8 * (|input| - pos) && r < Pow2(got)
        invariant ToBits(r, got) + BytesBits(input[pos..]) == all
      {
        r := TakeOnto(r, got);
        got := got + 8;
      }
      NothingPending(state, BytesBits(input[pos..]));
      assert Remaining() == BytesBits(input[pos..]);
    }

    /** The slow path: the pending bits, whole bytes, and a part of one more byte. */
    method ReadLong(bits: nat) returns (r: nat)
      requires Valid() && offset < bits <= offset + 8 * (|input| - pos)
      modifies this
      ensures Valid() && r < Pow2(bits) && ToBits(r, bits) + Remaining() == old(Remaining())
    {
      var got := offset;
      r := state;
      state, offset := 0, 0;
      NothingPending(state, BytesBits(input[pos..]));
      r, got := ReadBytes(r, got, bits);
      if got < bits {
        var low := ReadLast(bits - got);
        Stacked(r, got, low, bits - got, Remaining());
        assert got + (bits - got) == bits;
        r := Or(r, Shl(low, got));
      }
    }

    method Read(bits: nat) returns (r: nat)
      requires Valid() && bits <= |Remaining()|
      modifies this
      ensures Valid() && r == Value(old(Remaining())[..bits]) && Remaining() == old(Remaining())[bits..]
    {
      BytesLength(input[pos..]);
      if offset >= bits {
        r := ReadPending(bits);
      } else {
        r := ReadLong(bits);
        Concat3([], ToBits(r, bits), Remaining());
        ValueBits(r, bits);
      }
    }
  }
}
