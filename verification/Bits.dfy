/** Bytes, bits and the least-significant-bit-first packing that every cable and file format uses. */
module Bits {

  type byte = b: int | 0 <= b < 256

  type BitString = seq<bool>

  /** Unsigned integers have 32 bits. */
  const WORD: nat := 0x1_0000_0000

  /** Two to the power k: the value of a C expression `1 << k`. */
  function Exp2(k: nat): (r: nat)
    ensures r >= 1
  {
    if k == 0 then 1 else 2 * Exp2(k - 1)
  }

  function ValueOf(v: bool): nat {
    if v then 1 else 0
  }

  /** A bit moved to place k: the value of `v << k`. */
  function Weight(v: bool, k: nat): nat {
    if v then Exp2(k) else 0
  }

  /** Bit k of n, counting from the least significant. */
  predicate Bit(n: nat, k: nat) {
    if k == 0 then n % 2 == 1 else Bit(n / 2, k - 1)
  }

  /** n with bit k replaced by v: `n |= 1 << k` or `n &= ~(1 << k)`. */
  function SetBit(n: nat, k: nat, v: bool): nat {
    if k == 0 then n - n % 2 + ValueOf(v) else n % 2 + 2 * SetBit(n / 2, k - 1, v)
  }

  lemma {:induction false} SetBitBits(n: nat, k: nat, v: bool, j: nat)
    ensures Bit(SetBit(n, k, v), j) == if j == k then v else Bit(n, j)
  {
    var r := SetBit(n, k, v);
    if k == 0 {
      assert r / 2 == n / 2;
    } else if j > 0 {
      assert r / 2 == SetBit(n / 2, k - 1, v);
      SetBitBits(n / 2, k - 1, v, j - 1);
    }
  }

  lemma {:induction false} SetBitRange(n: nat, k: nat, v: bool, w: nat)
    requires n < Exp2(w) && k < w
    ensures SetBit(n, k, v) < Exp2(w)
  {
    var e := Exp2(w - 1);
    assert n < 2 * e;
    if k > 0 {
      var m := n / 2;
      assert m < e;
      SetBitRange(m, k - 1, v, w - 1);
      assert SetBit(m, k - 1, v) <= e - 1;
    }
  }

  /** Adding `v << k` to a number whose bit k is clear only sets that bit. */
  lemma {:induction false} AddBit(n: nat, k: nat, v: bool)
    requires !Bit(n, k)
    ensures n + Weight(v, k) == SetBit(n, k, v)
  {
    if k > 0 {
      AddBit(n / 2, k - 1, v);
      assert SetBit(n, k, v) == n % 2 + 2 * (n / 2 + Weight(v, k - 1));
      assert Weight(v, k) == 2 * (Weight(v, k - 1));
    }
  }

  lemma {:induction false} SmallHasNoBit(n: nat, k: nat)
    requires n < Exp2(k)
    ensures forall j :: j >= k ==> !Bit(n, j)
  {
    forall j: nat | j >= k
      ensures !Bit(n, j)
    {
      NoBit(n, k, j);
    }
  }

  lemma {:induction false} NoBit(n: nat, k: nat, j: nat)
    requires n < Exp2(k) && j >= k
    ensures !Bit(n, j)
  {
    if j > 0 {
      NoBit(n / 2, if k == 0 then 0 else k - 1, j - 1);
    }
  }

  lemma {:induction false} ZeroHasNoBit(k: nat)
    ensures !Bit(0, k)
  {
    if k > 0 {
      ZeroHasNoBit(k - 1);
    }
  }

  /** Two w-bit numbers with the same bits are equal. */
  lemma {:induction false} SameBits(a: nat, b: nat, w: nat)
    requires a < Exp2(w) && b < Exp2(w)
    requires forall k: nat :: k < w ==> Bit(a, k) == Bit(b, k)
    ensures a == b
  {
    if w > 0 {
      assert Bit(a, 0) == Bit(b, 0);
      forall k: nat | k < w - 1
        ensures Bit(a / 2, k) == Bit(b / 2, k)
      {
        assert Bit(a, k + 1) == Bit(b, k + 1);
      }
      SameBits(a / 2, b / 2, w - 1);
    }
  }

  /** The value of `n >> m`. */
  function ShiftRight(n: nat, m: nat): nat {
    if m == 0 then n else ShiftRight(n / 2, m - 1)
  }

  /** Shifting right by m moves bit k + m to bit k. */
  lemma {:induction false} ShiftRightBits(n: nat, m: nat, k: nat)
    ensures Bit(ShiftRight(n, m), k) == Bit(n, k + m)
  {
    if m > 0 {
      ShiftRightBits(n / 2, m - 1, k);
    }
  }

  lemma DivideUnique(n: nat, d: nat, q: nat, r: nat)
    requires d > 0 && r < d && n == q * d + r
    ensures n / d == q && n % d == r
  {
    SmallMultiple(n / d - q, d);
  }

  lemma SmallMultiple(e: int, d: int)
    requires -d < e * d < d
    ensures e == 0
  {
  }

  // ---- Bytes in memory ----

  /** Bytes needed to hold n bits, `(n + 7) >> 3`. */
  function BytesFor(n: nat): nat {
    (n + 7) / 8
  }

  /** Bit i of a byte buffer, least significant bit of each byte first. */
  predicate BitAt(bytes: seq<byte>, i: nat)
    requires i / 8 < |bytes|
  {
    Bit(bytes[i / 8], i % 8)
  }

  /** The first n bits of a byte buffer. */
  function BitsOf(bytes: seq<byte>, n: nat): (r: BitString)
    requires n <= 8 * |bytes|
    ensures |r| == n
    ensures forall i :: 0 <= i < n ==> r[i] == BitAt(bytes, i)
  {
    seq(n, i requires 0 <= i < n => BitAt(bytes, i))
  }

  function SetByteBit(b: byte, k: nat, v: bool): (r: byte)
    requires k < 8
  {
    assert Exp2(8) == 256;
    SetBitRange(b, k, v, 8);
    SetBit(b, k, v)
  }

  /** The number whose bits, least significant first, are the given string. */
  function NumberOf(bits: BitString): (r: nat)
    ensures r < Exp2(|bits|)
  {
    if bits == [] then 0 else ValueOf(bits[0]) + 2 * NumberOf(bits[1..])
  }

  lemma {:induction false} NumberBits(bits: BitString, k: nat)
    ensures Bit(NumberOf(bits), k) == (k < |bits| && bits[k])
  {
    if bits == [] {
      ZeroHasNoBit(k);
    } else {
      assert NumberOf(bits) / 2 == NumberOf(bits[1..]);
      if k > 0 {
        NumberBits(bits[1..], k - 1);
      }
    }
  }

  /** Byte m of a bit string, filled up with zeros if the string ends inside it. */
  function ByteOf(bits: BitString, m: nat): (r: byte)
    requires 8 * m <= |bits|
  {
    var part := if |bits| < 8 * m + 8 then bits[8 * m..] else bits[8 * m..8 * m + 8];
    SmallNumber(part);
    NumberOf(part)
  }

  lemma SmallNumber(part: BitString)
    requires |part| <= 8
    ensures NumberOf(part) < 256
  {
    ExpGrows(|part|, 8);
    assert Exp2(8) == 256;
  }

  lemma {:induction false} ExpGrows(a: nat, b: nat)
    requires a <= b
    ensures Exp2(a) <= Exp2(b)
  {
    if a < b {
      ExpGrows(a, b - 1);
    }
  }

  lemma ByteOfPrefix(bits: BitString, q: nat, m: nat)
    requires 8 * m + 8 <= q <= |bits|
    ensures ByteOf(bits[..q], m) == ByteOf(bits, m)
  {
    assert bits[..q][8 * m..8 * m + 8] == bits[8 * m..8 * m + 8];
    assert q == 8 * m + 8 ==> bits[..q][8 * m..] == bits[8 * m..8 * m + 8];
    assert |bits| == 8 * m + 8 ==> bits[8 * m..] == bits[8 * m..8 * m + 8];
  }

  /** A bit string packed into bytes, unused high bits of the last byte zero. */
  function Pack(bits: BitString): (r: seq<byte>)
    ensures |r| == BytesFor(|bits|)
  {
    seq(BytesFor(|bits|), m requires 0 <= m < BytesFor(|bits|) => ByteOf(bits, m))
  }

  lemma PackBit(bits: BitString, i: nat)
    requires i < 8 * BytesFor(|bits|)
    ensures BitAt(Pack(bits), i) == (i < |bits| && bits[i])
  {
    hide Bit, NumberOf;
    var m := i / 8;
    ByteOfBit(bits, m, i % 8);
    assert i == 8 * m + i % 8 && Pack(bits)[m] == ByteOf(bits, m);
  }

  lemma ByteOfBit(bits: BitString, m: nat, k: nat)
    requires 8 * m <= |bits| && k < 8
    ensures Bit(ByteOf(bits, m), k) == (8 * m + k < |bits| && bits[8 * m + k])
  {
    hide Bit, NumberOf;
    var part := if |bits| < 8 * m + 8 then bits[8 * m..] else bits[8 * m..8 * m + 8];
    NumberBits(part, k);
  }

  lemma PackBits(bits: BitString)
    ensures BitsOf(Pack(bits), |bits|) == bits
  {
    forall i | 0 <= i < |bits|
      ensures BitsOf(Pack(bits), |bits|)[i] == bits[i]
    {
      PackBit(bits, i);
    }
  }

  lemma {:induction false} NumberAppend(bits: BitString, v: bool)
    ensures NumberOf(bits + [v]) == NumberOf(bits) + Weight(v, |bits|)
  {
    if bits == [] {
      assert ([] + [v])[1..] == [];
    } else {
      assert (bits + [v])[1..] == bits[1..] + [v];
      NumberAppend(bits[1..], v);
      assert Weight(v, |bits|) == 2 * (Weight(v, |bits| - 1));
    }
  }

  /** Collecting one more bit into a byte: `b + (v << r)`. */
  lemma CollectBit(bits: BitString, j: nat, v: bool)
    requires 8 * j <= |bits| < 8 * j + 8
    ensures NumberOf((bits + [v])[8 * j..]) == NumberOf(bits[8 * j..]) + Weight(v, |bits| - 8 * j)
    ensures NumberOf((bits + [v])[8 * j..]) < 256
  {
    assert (bits + [v])[8 * j..] == bits[8 * j..] + [v];
    NumberAppend(bits[8 * j..], v);
    SmallNumber(bits[8 * j..] + [v]);
  }

  lemma {:induction false} ShiftRightOne(n: nat, m: nat)
    ensures ShiftRight(n, m) / 2 == ShiftRight(n, m + 1)
  {
    if m > 0 {
      ShiftRightOne(n / 2, m - 1);
    } else {
      assert ShiftRight(n, 1) == ShiftRight(n / 2, 0);
    }
  }

  function Repeat<T>(v: T, n: nat): (r: seq<T>)
    ensures |r| == n && forall i :: 0 <= i < n ==> r[i] == v
  {
    seq(n, _ => v)
  }

  lemma AllBits(v: bool, k: nat)
    requires k < 8
    ensures Bit(if v then 255 else 0, k) == v
  {
    if v {
      NumberBits(Repeat(true, 8), k);
      assert NumberOf(Repeat(true, 8)) == 255 by {
        assert Repeat(true, 8) == [true, true, true, true, true, true, true, true];
        assert NumberOf([]) == 0;
      }
    } else {
      ZeroHasNoBit(k);
    }
  }

  /** The last byte of a packed list holds the bits behind the whole bytes. */
  lemma PackSplit(bits: BitString, j: nat)
    requires 8 * j < |bits| <= 8 * j + 8
    ensures NumberOf(bits[8 * j..]) < 256
    ensures Pack(bits) == Pack(bits[..8 * j]) + [NumberOf(bits[8 * j..])]
  {
    SmallNumber(bits[8 * j..]);
    assert BytesFor(8 * j) == j && BytesFor(|bits|) == j + 1;
    forall m | 0 <= m <= j
      ensures Pack(bits)[m] == (Pack(bits[..8 * j]) + [NumberOf(bits[8 * j..])])[m]
    {
      if m < j {
        ByteOfPrefix(bits, 8 * j, m);
      } else {
        assert |bits| == 8 * j + 8 ==> bits[8 * j..8 * j + 8] == bits[8 * j..];
      }
    }
  }

  lemma NumberOfNothing()
    ensures NumberOf([]) == 0
  {
  }

  // ---- Bit order ----

  /** A byte with its bits the other way round: an entry of the bit reversal table. */
  function Reverse(b: byte): byte {
    SmallNumber(ReversedBits(b));
    NumberOf(ReversedBits(b))
  }

  function ReversedBits(b: byte): (r: BitString)
    ensures |r| == 8
  {
    seq(8, k requires 0 <= k < 8 => Bit(b, 7 - k))
  }

  lemma ReverseBits(b: byte, k: nat)
    requires k < 8
    ensures Bit(Reverse(b), k) == Bit(b, 7 - k)
  {
    hide Bit, NumberOf;
    NumberBits(ReversedBits(b), k);
  }

  /** Reversing twice changes nothing. */
  lemma ReverseTwice(b: byte)
    ensures Reverse(Reverse(b)) == b
  {
    hide Bit, Reverse;
    forall k: nat | k < 8
      ensures Bit(Reverse(Reverse(b)), k) == Bit(b, k)
    {
      ReverseBits(Reverse(b), k);
      ReverseBits(b, 7 - k);
    }
    assert Exp2(8) == 256;
    SameBits(Reverse(Reverse(b)), b, 8);
  }
}
