/** The two multiplications of the source: in place on byte arrays, and on eight 32-bit words. */
module GfMul {
  import opened Bytes
  import opened Gf128

  // ---- src/crypto.rs ---------------------------------------------------------

  /** `(b >> (7 - k)) & 1`. */
  function ByteBit(b: Byte, k: nat): Byte
    requires k < 8
  {
    (b >> (7 - k)) & 1
  }

  lemma ByteBitCases(b: Byte)
    ensures ByteBit(b, 0) == 1 <==> TestBit(b, 0)
    ensures ByteBit(b, 1) == 1 <==> TestBit(b, 1)
    ensures ByteBit(b, 2) == 1 <==> TestBit(b, 2)
    ensures ByteBit(b, 3) == 1 <==> TestBit(b, 3)
    ensures ByteBit(b, 4) == 1 <==> TestBit(b, 4)
    ensures ByteBit(b, 5) == 1 <==> TestBit(b, 5)
    ensures ByteBit(b, 6) == 1 <==> TestBit(b, 6)
    ensures ByteBit(b, 7) == 1 <==> TestBit(b, 7)
  {
  }

  lemma ByteBitIsBit(b: Byte, k: nat)
    requires k < 8
    ensures ByteBit(b, k) == 1 <==> TestBit(b, k)
  {
    hide ByteBit, TestBit;
    ByteBitCases(b);
  }

  method XorInto(z: array<Byte>, v: Block)
    requires z.Length == 16
    modifies z
    ensures z[..] == XorBlock(old(z[..]), v)
  {
    hide XorByte;
    for j := 0 to 16
      invariant forall k :: 0 <= k < j ==> z[k] == XorByte(old(z[k]), v[k])
      invariant forall k :: j <= k < 16 ==> z[k] == old(z[k])
    {
      z[j] := XorByte(z[j], v[j]);
    }
  }

  method ShiftInPlace(v: array<Byte>)
    requires v.Length == 16
    modifies v
    ensures v[..] == ShiftedBytes(old(v[..]))
  {
    hide ByteIn, ByteTop;
    var last := v[15];
    var j := 15;
    while j >= 1
      invariant 0 <= j <= 15
      invariant forall k :: 0 <= k <= j ==> v[k] == old(v[k])
      invariant forall k :: j < k < 16 ==> v[k] == ByteIn(old(v[k - 1]), old(v[k]))
    {
      v[j] := ByteIn(v[j - 1], v[j]);
      j := j - 1;
    }
    v[0] := ByteTop(v[0], last);
  }

  lemma OneStep(x: Block, y: Block, i: nat, z: Block, v: Block, z': Block)
    requires i < 128
    requires Bits(z) == Z(Bits(x), Bits(y), i) && Bits(v) == V(Bits(y), i)
    requires z' == if Bits(x)[i] then XorBlock(z, v) else z
    ensures Bits(z') == Z(Bits(x), Bits(y), i + 1)
    ensures Bits(ShiftedBytes(v)) == V(Bits(y), i + 1)
  {
    hide Bits, XorBlock, ShiftedBytes, Shift, Add;
    BitsOfXor(z, v);
    BitsOfShift(v);
    AddNone(Bits(z));
  }

  lemma AddNone(p: Poly)
    ensures Add(p, NONE) == p
  {
  }

  lemma BitOfByte(x: Block, i: nat)
    requires i < 128
    ensures Bits(x)[i] <==> ByteBit(x[i / 8], i % 8) == 1
  {
    hide TestBit, ByteBit;
    ByteBitIsBit(x[i / 8], i % 8);
  }

  /** The byte-wise product. */
  method Multiply(x: Block, y: Block) returns (r: Block)
    ensures Bits(r) == Product(Bits(x), Bits(y))
  {
    hide Bits, Z, V, XorBlock, ShiftedBytes, ByteBit;
    var z := new Byte[16](_ => 0);
    var v := new Byte[16](i requires 0 <= i < 16 => y[i]);
    assert v[..] == y;
    Start(x, y, z[..]);
    for i := 0 to 128
      invariant Bits(v[..]) == V(Bits(y), i)
      invariant Bits(z[..]) == Z(Bits(x), Bits(y), i)
    {
      ghost var z0, v0 := z[..], v[..];
      BitOfByte(x, i);
      if ByteBit(x[i / 8], i % 8) == 1 {
        XorInto(z, v[..]);
      }
      ShiftInPlace(v);
      OneStep(x, y, i, z0, v0, z[..]);
    }
    r := z[..];
  }

  lemma Start(x: Block, y: Block, z: Block)
    requires forall j :: 0 <= j < 16 ==> z[j] == 0
    ensures Bits(z) == Z(Bits(x), Bits(y), 0)
    ensures Bits(y) == V(Bits(y), 0)
  {
    BitsOfZero(z);
  }

  // ---- src/bpf/gut_common.h ----------------------------------------------------

  function Bit(b: bool): bv32 { if b then 1 else 0 }

  /** `(w >> (31 - k)) & 1`. */
  function WordBit(w: bv32, k: nat): bv32
    requires k < 32
  {
    (w >> (31 - k)) & 1
  }

  lemma WordBitCases0(w: bv32)
    ensures WordBit(w, 0) == Bit(TestBit(BeBytes(w)[0], 0)) && WordBit(w, 1) == Bit(TestBit(BeBytes(w)[0], 1))
    ensures WordBit(w, 2) == Bit(TestBit(BeBytes(w)[0], 2)) && WordBit(w, 3) == Bit(TestBit(BeBytes(w)[0], 3))
    ensures WordBit(w, 4) == Bit(TestBit(BeBytes(w)[0], 4)) && WordBit(w, 5) == Bit(TestBit(BeBytes(w)[0], 5))
    ensures WordBit(w, 6) == Bit(TestBit(BeBytes(w)[0], 6)) && WordBit(w, 7) == Bit(TestBit(BeBytes(w)[0], 7))
  {
  }

  lemma WordBitCases1(w: bv32)
    ensures WordBit(w, 8) == Bit(TestBit(BeBytes(w)[1], 0)) && WordBit(w, 9) == Bit(TestBit(BeBytes(w)[1], 1))
    ensures WordBit(w, 10) == Bit(TestBit(BeBytes(w)[1], 2)) && WordBit(w, 11) == Bit(TestBit(BeBytes(w)[1], 3))
    ensures WordBit(w, 12) == Bit(TestBit(BeBytes(w)[1], 4)) && WordBit(w, 13) == Bit(TestBit(BeBytes(w)[1], 5))
    ensures WordBit(w, 14) == Bit(TestBit(BeBytes(w)[1], 6)) && WordBit(w, 15) == Bit(TestBit(BeBytes(w)[1], 7))
  {
  }

  lemma WordBitCases2(w: bv32)
    ensures WordBit(w, 16) == Bit(TestBit(BeBytes(w)[2], 0)) && WordBit(w, 17) == Bit(TestBit(BeBytes(w)[2], 1))
    ensures WordBit(w, 18) == Bit(TestBit(BeBytes(w)[2], 2)) && WordBit(w, 19) == Bit(TestBit(BeBytes(w)[2], 3))
    ensures WordBit(w, 20) == Bit(TestBit(BeBytes(w)[2], 4)) && WordBit(w, 21) == Bit(TestBit(BeBytes(w)[2], 5))
    ensures WordBit(w, 22) == Bit(TestBit(BeBytes(w)[2], 6)) && WordBit(w, 23) == Bit(TestBit(BeBytes(w)[2], 7))
  {
  }

  lemma WordBitCases3(w: bv32)
    ensures WordBit(w, 24) == Bit(TestBit(BeBytes(w)[3], 0)) && WordBit(w, 25) == Bit(TestBit(BeBytes(w)[3], 1))
    ensures WordBit(w, 26) == Bit(TestBit(BeBytes(w)[3], 2)) && WordBit(w, 27) == Bit(TestBit(BeBytes(w)[3], 3))
    ensures WordBit(w, 28) == Bit(TestBit(BeBytes(w)[3], 4)) && WordBit(w, 29) == Bit(TestBit(BeBytes(w)[3], 5))
    ensures WordBit(w, 30) == Bit(TestBit(BeBytes(w)[3], 6)) && WordBit(w, 31) == Bit(TestBit(BeBytes(w)[3], 7))
  {
  }

  lemma WordBitIsBit(w: bv32, j: nat, k: nat)
    requires j < 4 && k < 8
    ensures WordBit(w, 8 * j + k) == Bit(TestBit(BeBytes(w)[j], k))
  {
    hide WordBit, TestBit, Bit, BeBytes;
    if j == 0 {
      WordBitCases0(w);
    } else if j == 1 {
      WordBitCases1(w);
    } else if j == 2 {
      WordBitCases2(w);
    } else {
      WordBitCases3(w);
    }
  }

  /** A big-endian load. */
  function BeWord(b: Bytes): bv32
    requires |b| == 4
  {
    ((b[0] as bv32) << 24) | ((b[1] as bv32) << 16) | ((b[2] as bv32) << 8) | (b[3] as bv32)
  }

  lemma BeBytesOfWord(b: Bytes)
    requires |b| == 4
    ensures BeBytes(BeWord(b)) == b
  {
    var c := BeBytes(BeWord(b));
    assert c[0] == b[0] && c[1] == b[1] && c[2] == b[2] && c[3] == b[3];
  }

  /** Byte j of the big-endian form of a word. */
  function Part(w: bv32, j: nat): Byte
    requires j < 4
  {
    BeBytes(w)[j]
  }

  /** Four words as the block they are stored to. */
  function Four(w0: bv32, w1: bv32, w2: bv32, w3: bv32): Block {
    [ Part(w0, 0), Part(w0, 1), Part(w0, 2), Part(w0, 3), Part(w1, 0), Part(w1, 1), Part(w1, 2), Part(w1, 3),
      Part(w2, 0), Part(w2, 1), Part(w2, 2), Part(w2, 3), Part(w3, 0), Part(w3, 1), Part(w3, 2), Part(w3, 3) ]
  }

  function AndWord(v: bv32, m: bv32): bv32 { v & m }

  /** `-bit` in 32-bit arithmetic. */
  function Spread(bit: bv32): bv32 { 0 - bit }

  function WordIn(left: bv32, w: bv32): bv32 { (w >> 1) | (left << 31) }

  /** The leading word of the shift; `carry` is the spread low bit of the last. */
  function WordTop(w: bv32, carry: bv32): bv32 { (w >> 1) ^ (0xE1000000 & carry) }

  function LowBit(w: bv32): bv32 { w & 1 }

  lemma WordInParts(left: bv32, w: bv32)
    ensures Part(WordIn(left, w), 0) == ByteIn(Part(left, 3), Part(w, 0))
    ensures Part(WordIn(left, w), 1) == ByteIn(Part(w, 0), Part(w, 1))
    ensures Part(WordIn(left, w), 2) == ByteIn(Part(w, 1), Part(w, 2))
    ensures Part(WordIn(left, w), 3) == ByteIn(Part(w, 2), Part(w, 3))
  {
  }

  lemma CarryIsLowBit(last: bv32)
    ensures Spread(LowBit(last)) == if LowBitByte(Part(last, 3)) == 1 then 0xFFFFFFFF else 0
  {
  }

  lemma TopIsIn(w: bv32)
    ensures WordTop(w, 0) == WordIn(0, w) && WordTop(w, 0xFFFFFFFF) == XorWord(WordIn(0, w), 0xE1000000)
  {
  }

  lemma Constants()
    ensures Part(0, 3) == 0
    ensures Part(0xE1000000, 0) == 0xE1 && Part(0xE1000000, 1) == 0 && Part(0xE1000000, 2) == 0
            && Part(0xE1000000, 3) == 0
  {
  }

  lemma TopByte(b: Byte, last: Byte)
    ensures ByteTop(b, last) == if LowBitByte(last) == 1 then XorByte(ByteIn(0, b), 0xE1) else ByteIn(0, b)
  {
  }

  lemma WordTopParts(w: bv32, last: bv32)
    ensures Part(WordTop(w, Spread(LowBit(last))), 0) == ByteTop(Part(w, 0), Part(last, 3))
    ensures Part(WordTop(w, Spread(LowBit(last))), 1) == ByteIn(Part(w, 0), Part(w, 1))
    ensures Part(WordTop(w, Spread(LowBit(last))), 2) == ByteIn(Part(w, 1), Part(w, 2))
    ensures Part(WordTop(w, Spread(LowBit(last))), 3) == ByteIn(Part(w, 2), Part(w, 3))
  {
    hide Part, WordTop, WordIn, XorWord, XorByte, ByteTop, ByteIn, LowBitByte, Spread, LowBit;
    CarryIsLowBit(last);
    TopIsIn(w);
    TopByte(Part(w, 0), Part(last, 3));
    WordInParts(0, w);
    Constants();
    XorParts(WordIn(0, w), 0xE1000000);
    XorZero(ByteIn(Part(w, 0), Part(w, 1)));
    XorZero(ByteIn(Part(w, 1), Part(w, 2)));
    XorZero(ByteIn(Part(w, 2), Part(w, 3)));
  }

  lemma ShiftedList(v: Block)
    ensures ShiftedBytes(v) == [ ByteTop(v[0], v[15]), ByteIn(v[0], v[1]), ByteIn(v[1], v[2]), ByteIn(v[2], v[3]),
                                 ByteIn(v[3], v[4]), ByteIn(v[4], v[5]), ByteIn(v[5], v[6]), ByteIn(v[6], v[7]),
                                 ByteIn(v[7], v[8]), ByteIn(v[8], v[9]), ByteIn(v[9], v[10]), ByteIn(v[10], v[11]),
                                 ByteIn(v[11], v[12]), ByteIn(v[12], v[13]), ByteIn(v[13], v[14]),
                                 ByteIn(v[14], v[15]) ]
  {
    hide ByteIn, ByteTop, ShiftedBytes;
  }

  /** The word-wise shift is the byte-wise shift. */
  lemma FourShifted(v0: bv32, v1: bv32, v2: bv32, v3: bv32)
    ensures Four(WordTop(v0, Spread(LowBit(v3))), WordIn(v0, v1), WordIn(v1, v2), WordIn(v2, v3))
            == ShiftedBytes(Four(v0, v1, v2, v3))
  {
    hide Part, WordTop, WordIn, Spread, LowBit, ByteIn, ByteTop, ShiftedBytes;
    WordTopParts(v0, v3);
    WordInParts(v0, v1);
    WordInParts(v1, v2);
    WordInParts(v2, v3);
    ShiftedList(Four(v0, v1, v2, v3));
  }

  lemma XorPart0(a: bv32, b: bv32)
    ensures Part(XorWord(a, b), 0) == XorByte(Part(a, 0), Part(b, 0))
  {
  }

  lemma XorPart1(a: bv32, b: bv32)
    ensures Part(XorWord(a, b), 1) == XorByte(Part(a, 1), Part(b, 1))
  {
  }

  lemma XorPart2(a: bv32, b: bv32)
    ensures Part(XorWord(a, b), 2) == XorByte(Part(a, 2), Part(b, 2))
  {
  }

  lemma XorPart3(a: bv32, b: bv32)
    ensures Part(XorWord(a, b), 3) == XorByte(Part(a, 3), Part(b, 3))
  {
  }

  lemma XorParts(a: bv32, b: bv32)
    ensures Part(XorWord(a, b), 0) == XorByte(Part(a, 0), Part(b, 0))
    ensures Part(XorWord(a, b), 1) == XorByte(Part(a, 1), Part(b, 1))
    ensures Part(XorWord(a, b), 2) == XorByte(Part(a, 2), Part(b, 2))
    ensures Part(XorWord(a, b), 3) == XorByte(Part(a, 3), Part(b, 3))
  {
    hide Part, XorWord, XorByte;
    XorPart0(a, b);
    XorPart1(a, b);
    XorPart2(a, b);
    XorPart3(a, b);
  }

  lemma XorList(z: Block, v: Block)
    ensures XorBlock(z, v) == [ XorByte(z[0], v[0]), XorByte(z[1], v[1]), XorByte(z[2], v[2]), XorByte(z[3], v[3]),
                                XorByte(z[4], v[4]), XorByte(z[5], v[5]), XorByte(z[6], v[6]), XorByte(z[7], v[7]),
                                XorByte(z[8], v[8]), XorByte(z[9], v[9]), XorByte(z[10], v[10]), XorByte(z[11], v[11]),
                                XorByte(z[12], v[12]), XorByte(z[13], v[13]), XorByte(z[14], v[14]),
                                XorByte(z[15], v[15]) ]
  {
    hide XorByte, XorBlock;
  }

  lemma FourXor(z0: bv32, z1: bv32, z2: bv32, z3: bv32, v0: bv32, v1: bv32, v2: bv32, v3: bv32)
    ensures Four(XorWord(z0, v0), XorWord(z1, v1), XorWord(z2, v2), XorWord(z3, v3))
            == XorBlock(Four(z0, z1, z2, z3), Four(v0, v1, v2, v3))
  {
    hide Part, XorWord, XorByte, XorBlock;
    XorParts(z0, v0);
    XorParts(z1, v1);
    XorParts(z2, v2);
    XorParts(z3, v3);
    XorList(Four(z0, z1, z2, z3), Four(v0, v1, v2, v3));
  }

  lemma MaskedWord(z: bv32, v: bv32, bit: bool)
    ensures XorWord(z, AndWord(v, Spread(Bit(bit)))) == if bit then XorWord(z, v) else z
  {
    if bit {
      assert Spread(Bit(bit)) == 0xFFFFFFFF;
    } else {
      assert Spread(Bit(bit)) == 0;
    }
  }

  lemma MaskSpreads(w: bv32, b: nat)
    requires b < 32
    ensures Spread(WordBit(w, b)) == Spread(Bit(TestBit(BeBytes(w)[b / 8], b % 8)))
  {
    hide Spread, WordBit, Bit, TestBit, BeBytes;
    WordBitIsBit(w, b / 8, b % 8);
    assert b == 8 * (b / 8) + b % 8;
  }

  lemma Selected(bit: bool, z0: bv32, z1: bv32, z2: bv32, z3: bv32, v0: bv32, v1: bv32, v2: bv32, v3: bv32)
    ensures var m := Spread(Bit(bit));
            Four(XorWord(z0, AndWord(v0, m)), XorWord(z1, AndWord(v1, m)), XorWord(z2, AndWord(v2, m)),
                XorWord(z3, AndWord(v3, m)))
            == if bit then XorBlock(Four(z0, z1, z2, z3), Four(v0, v1, v2, v3)) else Four(z0, z1, z2, z3)
  {
    hide Spread, Bit, XorWord, AndWord, Four, XorBlock;
    MaskedWord(z0, v0, bit);
    MaskedWord(z1, v1, bit);
    MaskedWord(z2, v2, bit);
    MaskedWord(z3, v3, bit);
    if bit {
      FourXor(z0, z1, z2, z3, v0, v1, v2, v3);
    }
  }

  lemma FourOfBlock(h: Block)
    ensures Four(BeWord(h[0..4]), BeWord(h[4..8]), BeWord(h[8..12]), BeWord(h[12..16])) == h
  {
    hide BeWord, BeBytes;
    BeBytesOfWord(h[0..4]);
    BeBytesOfWord(h[4..8]);
    BeBytesOfWord(h[8..12]);
    BeBytesOfWord(h[12..16]);
  }

  lemma FourZeros()
    ensures forall j :: 0 <= j < 16 ==> Four(0, 0, 0, 0)[j] == 0
  {
  }

  class GfCtx {
    var z0: bv32
    var z1: bv32
    var z2: bv32
    var z3: bv32
    var v0: bv32
    var v1: bv32
    var v2: bv32
    var v3: bv32
    var xw: bv32

    ghost function ZBlock(): Block
      reads this
    {
      Four(z0, z1, z2, z3)
    }

    ghost function VBlock(): Block
      reads this
    {
      Four(v0, v1, v2, v3)
    }

    constructor (h: Block)
      ensures VBlock() == h
      ensures forall j :: 0 <= j < 16 ==> ZBlock()[j] == 0
    {
      hide Four, BeWord;
      v0, v1, v2, v3 := BeWord(h[0..4]), BeWord(h[4..8]), BeWord(h[8..12]), BeWord(h[12..16]);
      z0, z1, z2, z3, xw := 0, 0, 0, 0, 0;
      new;
      FourOfBlock(h);
      FourZeros();
    }

    method Load(w: bv32)
      modifies this`xw
      ensures xw == w && ZBlock() == old(ZBlock()) && VBlock() == old(VBlock())
    {
      xw := w;
    }

    method Stored() returns (r: Block)
      ensures r == ZBlock()
    {
      r := Four(z0, z1, z2, z3);
    }

    /** One call of the loop's callback. */
    method Step(b: nat)
      requires b < 32
      modifies this
      ensures xw == old(xw)
      ensures VBlock() == ShiftedBytes(old(VBlock()))
      ensures ZBlock() == if TestBit(BeBytes(xw)[b / 8], b % 8) then XorBlock(old(ZBlock()), old(VBlock()))
              else old(ZBlock())
    {
      hide Part, WordTop, WordIn, Spread, LowBit, AndWord, XorWord, WordBit, Four, TestBit, BeBytes, XorBlock;
      hide ShiftedBytes;
      ghost var bit := TestBit(BeBytes(xw)[b / 8], b % 8);
      var mask := Spread(WordBit(xw, b));
      MaskSpreads(xw, b);
      Selected(bit, z0, z1, z2, z3, v0, v1, v2, v3);
      FourShifted(v0, v1, v2, v3);
      z0 := XorWord(z0, AndWord(v0, mask));
      z1 := XorWord(z1, AndWord(v1, mask));
      z2 := XorWord(z2, AndWord(v2, mask));
      z3 := XorWord(z3, AndWord(v3, mask));
      var carry := Spread(LowBit(v3));
      v3 := WordIn(v2, v3);
      v2 := WordIn(v1, v2);
      v1 := WordIn(v0, v1);
      v0 := WordTop(v0, carry);
    }

    /** Thirty-two callbacks over word `q` of x. */
    method Round(ghost x: Block, ghost y: Block, q: nat)
      requires q < 4 && BeBytes(xw) == x[4 * q..4 * q + 4]
      requires Bits(VBlock()) == V(Bits(y), 32 * q) && Bits(ZBlock()) == Z(Bits(x), Bits(y), 32 * q)
      modifies this
      ensures Bits(VBlock()) == V(Bits(y), 32 * q + 32) && Bits(ZBlock()) == Z(Bits(x), Bits(y), 32 * q + 32)
    {
      hide Z, V, XorBlock, ShiftedBytes, TestBit, BeBytes, ZBlock, VBlock;
      for b := 0 to 32
        invariant xw == old(xw)
        invariant Bits(VBlock()) == V(Bits(y), 32 * q + b) && Bits(ZBlock()) == Z(Bits(x), Bits(y), 32 * q + b)
      {
        ghost var z, v := ZBlock(), VBlock();
        Step(b);
        BitOfWord(x, q, b);
        OneStep(x, y, 32 * q + b, z, v, ZBlock());
      }
    }
  }

  lemma BitOfWord(x: Block, q: nat, b: nat)
    requires q < 4 && b < 32
    ensures Bits(x)[32 * q + b] == TestBit(x[4 * q..4 * q + 4][b / 8], b % 8)
  {
    hide TestBit;
    Place(4 * q + b / 8, b % 8);
    assert 32 * q + b == 8 * (4 * q + b / 8) + b % 8;
  }

  /** The word-wise product. */
  method KernelMultiply(x: Block, h: Block) returns (r: Block)
    ensures Bits(r) == Product(Bits(x), Bits(h))
  {
    hide Bits, Z, V, BeBytes, BeWord, GfCtx.ZBlock, GfCtx.VBlock;
    var ctx := new GfCtx(h);
    Start(x, h, ctx.ZBlock());
    for q := 0 to 4
      invariant Bits(ctx.VBlock()) == V(Bits(h), 32 * q) && Bits(ctx.ZBlock()) == Z(Bits(x), Bits(h), 32 * q)
    {
      BeBytesOfWord(x[4 * q..4 * q + 4]);
      ctx.Load(BeWord(x[4 * q..4 * q + 4]));
      ctx.Round(x, h, q);
    }
    r := ctx.Stored();
  }
}
