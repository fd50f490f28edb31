/**
 Multiplication in GF(2^128) (section 6.3 of NIST SP 800-38D): byte-wise and word-wise forms against
 one bit-string specification.
 */
module Gf128 {
  import opened Bytes

  type Block = b: Bytes | |b| == 16 witness Zeros(16)

  /** A block as the standard's bit string x_0 x_1 ... x_127. */
  type Poly = s: seq<bool> | |s| == 128 witness Falses(128)

  function Falses(n: nat): (r: seq<bool>)
    ensures |r| == n && forall i :: 0 <= i < n ==> !r[i]
  {
    if n == 0 then [] else Falses(n - 1) + [false]
  }

  // ---- Specification -------------------------------------------------------

  function Add(x: Poly, y: Poly): Poly
  {
    seq(128, i requires 0 <= i < 128 => x[i] != y[i])
  }

  const NONE: Poly := Falses(128)

  /** The constant 11100001 || 0^120. */
  predicate ReductionBit(i: nat) { i == 0 || i == 1 || i == 2 || i == 7 }

  /** V_{i+1} from V_i: one place to the right, adding the constant when a one falls out. */
  function Shift(v: Poly): Poly
  {
    seq(128, i requires 0 <= i < 128 => (i > 0 && v[i - 1]) != (v[127] && ReductionBit(i)))
  }

  function V(y: Poly, n: nat): Poly {
    if n == 0 then y else Shift(V(y, n - 1))
  }

  function Pick(bit: bool, v: Poly): Poly { if bit then v else NONE }

  /** Z_n: the sum of the V_i for the set bits among the first n. */
  function Z(x: Poly, y: Poly, n: nat): Poly
    requires n <= 128
  {
    if n == 0 then NONE else Add(Z(x, y, n - 1), Pick(x[n - 1], V(y, n - 1)))
  }

  /** The product of two elements. */
  function Product(x: Poly, y: Poly): Poly { Z(x, y, 128) }

  // ---- Linearity -----------------------------------------------------------

  lemma {:induction false} VLinear(y: Poly, y': Poly, n: nat)
    ensures V(Add(y, y'), n) == Add(V(y, n), V(y', n))
  {
    if n > 0 {
      VLinear(y, y', n - 1);
      ShiftLinear(V(y, n - 1), V(y', n - 1));
    }
  }

  lemma ShiftLinear(v: Poly, w: Poly)
    ensures Shift(Add(v, w)) == Add(Shift(v), Shift(w))
  {
  }

  lemma Regroup(a: Poly, b: Poly, c: Poly, d: Poly)
    ensures Add(Add(a, b), Add(c, d)) == Add(Add(a, c), Add(b, d))
  {
  }

  lemma PickLinear(bit: bool, v: Poly, w: Poly)
    ensures Pick(bit, Add(v, w)) == Add(Pick(bit, v), Pick(bit, w))
  {
  }

  lemma PickBits(b: bool, b': bool, v: Poly)
    ensures Pick(b != b', v) == Add(Pick(b, v), Pick(b', v))
  {
  }

  lemma {:induction false} ZLinearRight(x: Poly, y: Poly, y': Poly, n: nat)
    requires n <= 128
    ensures Z(x, Add(y, y'), n) == Add(Z(x, y, n), Z(x, y', n))
  {
    hide Pick, V, Add;
    if n == 0 {
      PickBits(false, false, NONE);
      NoneSum();
    } else {
      ZLinearRight(x, y, y', n - 1);
      VLinear(y, y', n - 1);
      PickLinear(x[n - 1], V(y, n - 1), V(y', n - 1));
      Regroup(Z(x, y, n - 1), Pick(x[n - 1], V(y, n - 1)), Z(x, y', n - 1), Pick(x[n - 1], V(y', n - 1)));
    }
  }

  lemma NoneSum()
    ensures Add(NONE, NONE) == NONE
  {
  }

  lemma AddAt(x: Poly, y: Poly, i: nat)
    requires i < 128
    ensures Add(x, y)[i] == (x[i] != y[i])
  {
  }

  lemma {:induction false} ZLinearLeft(x: Poly, x': Poly, y: Poly, n: nat)
    requires n <= 128
    ensures Z(Add(x, x'), y, n) == Add(Z(x, y, n), Z(x', y, n))
  {
    hide Pick, V, Add;
    if n == 0 {
      NoneSum();
    } else {
      ZLinearLeft(x, x', y, n - 1);
      AddAt(x, x', n - 1);
      PickBits(x[n - 1], x'[n - 1], V(y, n - 1));
      Regroup(Z(x, y, n - 1), Pick(x[n - 1], V(y, n - 1)), Z(x', y, n - 1), Pick(x'[n - 1], V(y, n - 1)));
    }
  }

  /** Multiplication distributes over addition on both sides. */
  lemma ProductIsLinear(x: Poly, x': Poly, y: Poly, y': Poly)
    ensures Product(x, Add(y, y')) == Add(Product(x, y), Product(x, y'))
    ensures Product(Add(x, x'), y) == Add(Product(x, y), Product(x', y))
  {
    ZLinearRight(x, y, y', 128);
    ZLinearLeft(x, x', y, 128);
  }

  // ---- Bytes and bits ------------------------------------------------------

  function BitMask(k: nat): Byte {
    if k == 0 then 0x80 else if k == 1 then 0x40 else if k == 2 then 0x20 else if k == 3 then 0x10
    else if k == 4 then 0x08 else if k == 5 then 0x04 else if k == 6 then 0x02 else 0x01
  }

  /** Bit k of a byte, counted from the left. */
  predicate TestBit(b: Byte, k: nat) { Masked(b, BitMask(k)) != 0 }

  function Bits(x: Block): Poly
  {
    seq(128, i requires 0 <= i < 128 => TestBit(x[i / 8], i % 8))
  }

  lemma BitsDetermineByte(a: Byte, b: Byte)
    requires TestBit(a, 0) == TestBit(b, 0) && TestBit(a, 1) == TestBit(b, 1) && TestBit(a, 2) == TestBit(b, 2)
             && TestBit(a, 3) == TestBit(b, 3)
    requires TestBit(a, 4) == TestBit(b, 4) && TestBit(a, 5) == TestBit(b, 5) && TestBit(a, 6) == TestBit(b, 6)
             && TestBit(a, 7) == TestBit(b, 7)
    ensures a == b
  {
  }

  /** A block is determined by its bits. */
  lemma BitsInjective(x: Block, y: Block)
    requires Bits(x) == Bits(y)
    ensures x == y
  {
    hide TestBit;
    forall j | 0 <= j < 16 ensures x[j] == y[j] {
      forall k | 0 <= k < 8 ensures TestBit(x[j], k) == TestBit(y[j], k) {
        Place(j, k);
        assert Bits(x)[8 * j + k] == Bits(y)[8 * j + k];
      }
      BitsDetermineByte(x[j], y[j]);
    }
  }

  lemma Place(j: nat, k: nat)
    requires k < 8
    ensures (8 * j + k) / 8 == j && (8 * j + k) % 8 == k
  {
  }

  function XorBlock(x: Block, y: Block): (r: Block)
    ensures forall j :: 0 <= j < 16 ==> r[j] == XorByte(x[j], y[j])
  {
    seq(16, j requires 0 <= j < 16 => XorByte(x[j], y[j]))
  }

  function Masked(a: Byte, m: Byte): Byte { a & m }

  lemma MaskedXor(a: Byte, b: Byte, m: Byte)
    ensures Masked(XorByte(a, b), m) == XorByte(Masked(a, m), Masked(b, m))
  {
  }

  lemma MaskedOneBit(a: Byte, k: nat)
    ensures Masked(a, BitMask(k)) == 0 || Masked(a, BitMask(k)) == BitMask(k)
  {
  }

  lemma XorIsZero(x: Byte, y: Byte)
    ensures XorByte(x, y) == 0 <==> x == y
  {
  }

  lemma TestBitXor(a: Byte, b: Byte, k: nat)
    ensures TestBit(XorByte(a, b), k) == (TestBit(a, k) != TestBit(b, k))
  {
    hide Masked, XorByte, BitMask;
    MaskedXor(a, b, BitMask(k));
    MaskedOneBit(a, k);
    MaskedOneBit(b, k);
    XorIsZero(Masked(a, BitMask(k)), Masked(b, BitMask(k)));
  }

  lemma BitsOfXor(x: Block, y: Block)
    ensures Bits(XorBlock(x, y)) == Add(Bits(x), Bits(y))
  {
    hide TestBit, XorByte;
    forall i | 0 <= i < 128 ensures Bits(XorBlock(x, y))[i] == Add(Bits(x), Bits(y))[i] {
      TestBitXor(x[i / 8], y[i / 8], i % 8);
    }
  }

  lemma BitsOfZero(x: Block)
    requires forall j :: 0 <= j < 16 ==> x[j] == 0
    ensures Bits(x) == NONE
  {
  }

  // ---- The byte-wise shift ---------------------------------------------------

  function ByteIn(left: Byte, b: Byte): Byte { (b >> 1) | (left << 7) }

  function LowBitByte(b: Byte): Byte { b & 1 }

  function ByteTop(b: Byte, last: Byte): Byte { if LowBitByte(last) == 1 then (b >> 1) ^ 0xE1 else b >> 1 }

  function ShiftedBytes(v: Block): (r: Block)
    ensures r[0] == ByteTop(v[0], v[15])
    ensures forall j :: 1 <= j < 16 ==> r[j] == ByteIn(v[j - 1], v[j])
  {
    [ByteTop(v[0], v[15])] + seq(15, j requires 0 <= j < 15 => ByteIn(v[j], v[j + 1]))
  }

  lemma ByteInBit(left: Byte, b: Byte, k: nat)
    requires k < 8
    ensures TestBit(ByteIn(left, b), k) == if k == 0 then TestBit(left, 7) else TestBit(b, k - 1)
  {
  }

  lemma ByteTopBit(b: Byte, last: Byte, k: nat)
    requires k < 8
    ensures TestBit(ByteTop(b, last), k) == ((k > 0 && TestBit(b, k - 1)) != (TestBit(last, 7) && ReductionBit(k)))
  {
  }

  /** Bit i of the byte-wise shift, by the byte it lies in. */
  lemma ShiftedBit(v: Block, j: nat, k: nat)
    requires j < 16 && k < 8
    ensures TestBit(ShiftedBytes(v)[j], k) == (
      (if k > 0 then TestBit(v[j], k - 1) else j > 0 && TestBit(v[j - 1], 7))
      != (TestBit(v[15], 7) && j == 0 && ReductionBit(k)))
  {
    hide TestBit, ByteIn, ByteTop, ReductionBit;
    if j == 0 {
      ByteTopBit(v[0], v[15], k);
    } else {
      ByteInBit(v[j - 1], v[j], k);
    }
  }

  lemma BitBefore(v: Block, j: nat, k: nat)
    requires j < 16 && k < 8 && 8 * j + k > 0
    ensures Bits(v)[8 * j + k - 1] == if k > 0 then TestBit(v[j], k - 1) else TestBit(v[j - 1], 7)
  {
    hide TestBit;
    if k > 0 {
      Place(j, k - 1);
    } else {
      Place(j - 1, 7);
    }
  }

  lemma ShiftedAt(v: Block, j: nat, k: nat)
    requires j < 16 && k < 8
    ensures Bits(ShiftedBytes(v))[8 * j + k] == Shift(Bits(v))[8 * j + k]
  {
    hide TestBit, ShiftedBytes;
    Place(j, k);
    ShiftedBit(v, j, k);
    if 8 * j + k > 0 {
      BitBefore(v, j, k);
    }
    assert Bits(v)[127] == TestBit(v[15], 7);
    assert ReductionBit(8 * j + k) <==> j == 0 && ReductionBit(k);
  }

  /** The byte-wise shift is the shift of the bit string. */
  lemma BitsOfShift(v: Block)
    ensures Bits(ShiftedBytes(v)) == Shift(Bits(v))
  {
    hide TestBit, ByteIn, ByteTop, ShiftedBytes, Bits, Shift;
    var s, b := Bits(ShiftedBytes(v)), Bits(v);
    forall i | 0 <= i < 128 ensures s[i] == Shift(b)[i] {
      ShiftedAt(v, i / 8, i % 8);
    }
  }
}
