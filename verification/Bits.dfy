/**
 Numbers as little-endian bit strings, and the machine operations on them.
 */
module Bits {

  type Byte = b: nat | b < 256

  function Pow2(k: nat): (r: nat)
    ensures r >= 1
  {
    if k == 0 then 1 else 2 * Pow2(k - 1)
  }

  function BitAt(v: nat, i: nat): bool {
    if i == 0 then v % 2 == 1 else BitAt(v / 2, i - 1)
  }

  /** The `w` low bits of `v`, least significant first. */
  function ToBits(v: nat, w: nat): (r: seq<bool>)
    ensures |r| == w
  {
    seq(w, i requires 0 <= i => BitAt(v, i))
  }

  lemma BitsUnfold(v: nat, w: nat)
    requires w > 0
    ensures ToBits(v, w) == [v % 2 == 1] + ToBits(v / 2, w - 1)
    ensures ToBits(v, w)[1..] == ToBits(v / 2, w - 1)
  {
  }

  function Bit(b: bool): nat {
    if b then 1 else 0
  }

  /** The number a bit string denotes. */
  function Value(b: seq<bool>): nat {
    if b == [] then 0 else Bit(b[0]) + 2 * Value(b[1..])
  }

  // ---------- machine operations, bit by bit ----------

  function Or(a: nat, b: nat): nat {
    if a == 0 && b == 0 then 0 else Bit(a % 2 == 1 || b % 2 == 1) + 2 * Or(a / 2, b / 2)
  }

  function And(a: nat, b: nat): nat {
    if a == 0 || b == 0 then 0 else Bit(a % 2 == 1 && b % 2 == 1) + 2 * And(a / 2, b / 2)
  }

  function Shl(a: nat, k: nat): nat {
    if k == 0 then a else 2 * Shl(a, k - 1)
  }

  function Shr(a: nat, k: nat): nat {
    if k == 0 then a else Shr(a / 2, k - 1)
  }

  /** The mask of the k low bits: (1 << k) - 1. */
  function Mask(k: nat): nat {
    ShlOne(k);
    Shl(1, k) - 1
  }

  // ---------- bit strings ----------

  lemma {:induction false} ValueBits(v: nat, w: nat)
    ensures Value(ToBits(v, w)) < Pow2(w)
    ensures v < Pow2(w) ==> Value(ToBits(v, w)) == v
  {
    if w == 0 {
    } else {
      ValueBits(v / 2, w - 1);
      BitsUnfold(v, w);
    }
  }

  lemma {:induction false} BitsValue(b: seq<bool>)
    ensures ToBits(Value(b), |b|) == b && Value(b) < Pow2(|b|)
  {
    if b == [] {
    } else {
      BitsValue(b[1..]);
      BitsUnfold(Value(b), |b|);
      assert b == [b[0]] + b[1..];
      assert Value(b) / 2 == Value(b[1..]) && Value(b) % 2 == Bit(b[0]);
    }
  }

  /** What ToBits keeps of a value: the value modulo 2^w. */
  lemma {:induction false} ValueBitsMod(v: nat, w: nat) returns (q: nat)
    ensures v == Value(ToBits(v, w)) + Shl(q, w)
  {
    if w == 0 {
      q := v;
    } else {
      q := ValueBitsMod(v / 2, w - 1);
      BitsUnfold(v, w);
    }
  }

  lemma {:induction false} BitsSplit(v: nat, a: nat, b: nat)
    ensures ToBits(v, a + b) == ToBits(v, a) + ToBits(Shr(v, a), b)
  {
    if a == 0 {
    } else {
      BitsSplit(v / 2, a - 1, b);
      assert a - 1 + b == a + b - 1;
      BitsUnfold(v, a + b);
      BitsUnfold(v, a);
    }
  }

  lemma {:induction false} BitsZero(w: nat)
    ensures ToBits(0, w) == seq(w, _ => false)
  {
    if w == 0 {
    } else {
      BitsZero(w - 1);
      BitsUnfold(0, w);
    }
  }

  lemma {:induction false} ShrSmall(v: nat, k: nat)
    requires v < Pow2(k)
    ensures Shr(v, k) == 0
  {
    if k == 0 {
    } else {
      ShrSmall(v / 2, k - 1);
    }
  }

  lemma {:induction false} ShrBound(v: nat, k: nat, w: nat)
    requires v < Pow2(k + w)
    ensures Shr(v, k) < Pow2(w)
  {
    if k == 0 {
    } else {
      ShrBound(v / 2, k - 1, w);
    }
  }

  /** `state | (x << k)` puts x above a k-bit state. */
  lemma {:induction false} OrShl(a: nat, x: nat, k: nat)
    requires a < Pow2(k)
    ensures Or(a, Shl(x, k)) == a + Shl(x, k)
  {
    if k == 0 {
      OrZero(x);
    } else {
      OrShl(a / 2, x, k - 1);
    }
  }

  lemma {:induction false} OrZero(x: nat)
    ensures Or(0, x) == x
  {
    if x == 0 {
    } else {
      OrZero(x / 2);
    }
  }

  lemma JoinHalves(a: nat, x: nat, k: nat)
    requires k > 0
    ensures (a + Shl(x, k)) / 2 == a / 2 + Shl(x, k - 1) && (a + Shl(x, k)) % 2 == a % 2
  {
  }

  lemma {:induction false} JoinBits(a: nat, x: nat, k: nat, j: nat)
    requires a < Pow2(k)
    ensures ToBits(a + Shl(x, k), k + j) == ToBits(a, k) + ToBits(x, j)
    ensures x < Pow2(j) ==> a + Shl(x, k) < Pow2(k + j)
  {
    if k == 0 {
    } else {
      JoinBits(a / 2, x, k - 1, j);
      assert k - 1 + j == k + j - 1;
      JoinHalves(a, x, k);
      BitsUnfold(a + Shl(x, k), k + j);
      BitsUnfold(a, k);
    }
  }

  lemma {:induction false} ShlOne(k: nat)
    ensures Shl(1, k) == Pow2(k)
  {
    if k == 0 {
    } else {
      ShlOne(k - 1);
    }
  }

  /** `v & mask` keeps the k low bits. */
  lemma {:induction false} AndMask(v: nat, k: nat)
    ensures And(v, Mask(k)) == Value(ToBits(v, k))
  {
    ShlOne(k);
    if k == 0 {
    } else {
      ShlOne(k - 1);
      AndMask(v / 2, k - 1);
      BitsUnfold(v, k);
      assert Mask(k) / 2 == Mask(k - 1) && Mask(k) % 2 == 1;
      if v == 0 {
        AndZero(Mask(k - 1));
      }
    }
  }

  lemma AndZero(x: nat)
    ensures And(0, x) == 0
  {
  }

  lemma {:induction false} Pow2Monotone(a: nat, b: nat)
    requires a <= b
    ensures Pow2(a) <= Pow2(b)
    decreases b
  {
    if a == b {
    } else {
      Pow2Monotone(a, b - 1);
    }
  }

  lemma SmallWidth(k: nat)
    requires k <= 8
    ensures Pow2(k) <= 256
  {
    Pow2Monotone(k, 8);
    assert Pow2(8) == 256;
  }

  lemma LowBits(v: nat, w: nat)
    ensures And(v, Mask(w)) == Value(ToBits(v, w)) < Pow2(w) && ToBits(And(v, Mask(w)), w) == ToBits(v, w)
  {
    AndMask(v, w);
    ValueBits(v, w);
    BitsValue(ToBits(v, w));
  }

  /** Putting a w-bit value above a k-bit one. */
  lemma Extend(r: nat, k: nat, c: nat, w: nat)
    requires r < Pow2(k) && c < Pow2(w)
    ensures Or(r, Shl(c, k)) < Pow2(k + w)
    ensures ToBits(Or(r, Shl(c, k)), k + w) == ToBits(r, k) + ToBits(c, w)
  {
    OrShl(r, c, k);
    JoinBits(r, c, k, w);
  }

  function Deposited(state: nat, offset: nat, val: nat, w: nat): nat {
    Or(state, Shl(And(val, Mask(w)), offset))
  }

  /** Writing w bits of `val` above a pending `offset`-bit state. */
  lemma Deposit(state: nat, offset: nat, val: nat, w: nat)
    requires state < Pow2(offset)
    ensures Deposited(state, offset, val, w) < Pow2(offset + w)
    ensures ToBits(Deposited(state, offset, val, w), offset + w) == ToBits(state, offset) + ToBits(val, w)
  {
    LowBits(val, w);
    var low := And(val, Mask(w));
    OrShl(state, low, offset);
    JoinBits(state, low, offset, w);
  }

  /** Reading the k low bits of a (k+w)-bit value and keeping the rest. */
  lemma Withdraw(c: nat, k: nat, w: nat)
    requires c < Pow2(k + w)
    ensures And(c, Mask(k)) == Value(ToBits(c, k)) < Pow2(k) && ToBits(And(c, Mask(k)), k) == ToBits(c, k)
    ensures Shr(c, k) < Pow2(w)
    ensures ToBits(c, k + w) == ToBits(c, k) + ToBits(Shr(c, k), w)
  {
    LowBits(c, k);
    ShrBound(c, k, w);
    BitsSplit(c, k, w);
  }

  // ---------- bytes ----------

  function BytesBits(bytes: seq<Byte>): (r: seq<bool>)
  {
    if bytes == [] then [] else BytesBits(bytes[..|bytes| - 1]) + ToBits(bytes[|bytes| - 1], 8)
  }

  lemma BytesLength(bytes: seq<Byte>)
    ensures |BytesBits(bytes)| == 8 * |bytes|
  {
  }

  lemma BytesSnoc(bytes: seq<Byte>, b: Byte)
    ensures BytesBits(bytes + [b]) == BytesBits(bytes) + ToBits(b, 8)
  {
    assert (bytes + [b])[..|bytes|] == bytes;
  }

  lemma BytesConcat(s: seq<Byte>, t: seq<Byte>)
    ensures BytesBits(s + t) == BytesBits(s) + BytesBits(t)
  {
    if t == [] {
      assert s + t == s;
    } else {
      var k := |t| - 1;
      BytesConcat(s, t[..k]);
      assert (s + t)[..|s + t| - 1] == s + t[..k];
      assert (BytesBits(s) + BytesBits(t[..k])) + ToBits(t[k], 8)
             == BytesBits(s) + (BytesBits(t[..k]) + ToBits(t[k], 8));
    }
  }

  lemma BytesCons(s: seq<Byte>)
    requires s != []
    ensures BytesBits(s) == ToBits(s[0], 8) + BytesBits(s[1..])
  {
    BytesConcat([s[0]], s[1..]);
    assert s == [s[0]] + s[1..];
    BytesSnoc([], s[0]);
    assert [] + [s[0]] == [s[0]];
  }

  /** Bits2Bytes. */
  function BytesFor(bits: nat): nat {
    (bits + 7) / 8
  }

  lemma PrefixEqual<T>(a: seq<T>, b: seq<T>, all: seq<T>)
    requires a <= all && b <= all && |a| == |b|
    ensures a == b
  {
  }
}
