/**
 GHASH (section 6.4 of NIST SP 800-38D): the general loop and the fixed 34/128-byte form against one
 fold over the padded input.
 */
module Ghash {
  import opened Bytes
  import opened Gf128
  import opened GfMul
  import opened GfRing

  // ---- Specification -------------------------------------------------------

  function Chunk(m: Bytes, i: nat): Block
    requires 16 * i + 16 <= |m|
  {
    m[16 * i..16 * i + 16]
  }

  /** Y_n: the first n blocks of m folded under h. */
  function Fold(h: Poly, m: Bytes, n: nat): Poly
    requires 16 * n <= |m|
  {
    if n == 0 then NONE else Product(Add(Fold(h, m, n - 1), Bits(Chunk(m, n - 1))), h)
  }

  /** The number of 16-byte blocks that hold n bytes. */
  function Count(n: nat): (c: nat)
    ensures 16 * c - 16 < n <= 16 * c
  {
    (n + 15) / 16
  }

  function Padded(s: Bytes): (r: Bytes)
    ensures |r| == 16 * Count(|s|)
  {
    s + Zeros(16 * Count(|s|) - |s|)
  }

  function LengthBlock(a: nat, c: nat): (b: Block) { Be64(BitLength(a)) + Be64(BitLength(c)) }

  /** The string that GHASH authenticates: both parts padded, then both lengths. */
  function Input(aad: Bytes, ct: Bytes): (m: Bytes)
    ensures |m| == 16 * (Count(|aad|) + Count(|ct|) + 1)
  {
    Padded(aad) + Padded(ct) + LengthBlock(|aad|, |ct|)
  }

  function Ghash(h: Poly, aad: Bytes, ct: Bytes): Poly {
    Fold(h, Input(aad, ct), Count(|aad|) + Count(|ct|) + 1)
  }

  // ---- The closed form -------------------------------------------------------

  /** x multiplied n times by h. */
  function Times(x: Poly, h: Poly, n: nat): Poly {
    if n == 0 then x else Product(Times(x, h, n - 1), h)
  }

  /** The first k terms of X_1 H^n + X_2 H^(n-1) + ... + X_n H. */
  function Terms(h: Poly, m: Bytes, n: nat, k: nat): Poly
    requires 16 * k <= |m| && k <= n
  {
    if k == 0 then NONE else Add(Terms(h, m, n, k - 1), Times(Bits(Chunk(m, k - 1)), h, n - (k - 1)))
  }

  lemma {:induction false} TermsRaised(h: Poly, m: Bytes, n: nat, k: nat)
    requires 16 * k <= |m| && k <= n
    ensures Terms(h, m, n + 1, k) == Product(Terms(h, m, n, k), h)
  {
    hide Product, Add, Bits, Chunk;
    if k == 0 {
      ProductNone(h);
    } else {
      TermsRaised(h, m, n, k - 1);
      var t := Times(Bits(Chunk(m, k - 1)), h, n - (k - 1));
      ProductIsLinear(Terms(h, m, n, k - 1), t, h, h);
      assert Times(Bits(Chunk(m, k - 1)), h, n + 1 - (k - 1)) == Product(t, h);
    }
  }

  /** h^n. */
  function Raised(h: Poly, n: nat): Poly {
    if n == 0 then Monomial(0) else Product(Raised(h, n - 1), h)
  }

  /** So each term is a coefficient times a power of the subkey. */
  lemma {:induction false} TimesIsPower(x: Poly, h: Poly, n: nat)
    ensures Times(x, h, n) == Product(x, Raised(h, n))
  {
    hide Product, Monomial;
    if n == 0 {
      ProductCommutes(x, Monomial(0));
      OneIsNeutral(x);
    } else {
      TimesIsPower(x, h, n - 1);
      ProductAssociates(x, Raised(h, n - 1), h);
    }
  }

  lemma FoldStep(h: Poly, m: Bytes, n: nat)
    requires 16 * n + 16 <= |m|
    ensures Fold(h, m, n + 1) == Product(Add(Fold(h, m, n), Bits(Chunk(m, n))), h)
  {
    hide Product, Add, Bits, Chunk;
  }

  lemma Distribute(x: Poly, y: Poly, h: Poly)
    ensures Product(Add(x, y), h) == Add(Product(x, h), Product(y, h))
  {
    hide Product, Add;
    ProductIsLinear(x, y, h, h);
  }

  lemma DistributeTwo(x: Poly, y: Poly, u: Poly, v: Poly, h: Poly)
    ensures Product(Add(Add(x, u), Add(y, v)), h) == Add(Product(Add(x, y), h), Product(Add(u, v), h))
  {
    hide Product, Add;
    Regroup(x, u, y, v);
    Distribute(Add(x, y), Add(u, v), h);
  }

  lemma LastTerm(h: Poly, m: Bytes, n: nat)
    requires 16 * n + 16 <= |m|
    ensures Terms(h, m, n + 1, n + 1) == Add(Terms(h, m, n + 1, n), Product(Bits(Chunk(m, n)), h))
  {
    hide Product, Add, Bits, Chunk;
    assert Times(Bits(Chunk(m, n)), h, 1) == Product(Times(Bits(Chunk(m, n)), h, 0), h);
  }

  /** The iterated hash is the polynomial in H with the blocks as coefficients. */
  lemma {:induction false} FoldIsPolynomial(h: Poly, m: Bytes, n: nat)
    requires 16 * n <= |m|
    ensures Fold(h, m, n) == Terms(h, m, n, n)
  {
    hide Product, Add, Bits, Chunk;
    if n > 0 {
      hide Fold, Terms;
      FoldIsPolynomial(h, m, n - 1);
      FoldStep(h, m, n - 1);
      TermsRaised(h, m, n - 1, n - 1);
      Distribute(Fold(h, m, n - 1), Bits(Chunk(m, n - 1)), h);
      LastTerm(h, m, n - 1);
    }
  }

  predicate IsXor(m: Bytes, d: Bytes, e: Bytes) {
    |d| == |e| == |m| && forall j :: 0 <= j < |m| ==> e[j] == XorByte(m[j], d[j])
  }

  lemma ChunkOfXor(m: Bytes, d: Bytes, e: Bytes, i: nat)
    requires |d| == |e| == |m| && 16 * i + 16 <= |m| && IsXor(m, d, e)
    ensures Chunk(e, i) == XorBlock(Chunk(m, i), Chunk(d, i))
  {
    hide XorByte, XorBlock;
  }

  /** Blocks that differ by d change the hash by the hash of d. */
  lemma {:induction false} FoldIsLinear(h: Poly, m: Bytes, d: Bytes, e: Bytes, n: nat)
    requires |d| == |e| == |m| && 16 * n <= |m| && IsXor(m, d, e)
    ensures Fold(h, e, n) == Add(Fold(h, m, n), Fold(h, d, n))
  {
    hide Product, Add, Bits, XorByte, Chunk, XorBlock, IsXor;
    if n == 0 {
      NoneSum();
    } else {
      hide Fold;
      FoldIsLinear(h, m, d, e, n - 1);
      ChunkOfXor(m, d, e, n - 1);
      BitsOfXor(Chunk(m, n - 1), Chunk(d, n - 1));
      FoldStep(h, m, n - 1);
      FoldStep(h, d, n - 1);
      FoldStep(h, e, n - 1);
      DistributeTwo(Fold(h, m, n - 1), Bits(Chunk(m, n - 1)), Fold(h, d, n - 1), Bits(Chunk(d, n - 1)), h);
    }
  }

  // ---- src/crypto.rs ---------------------------------------------------------

  /** Block i of s, zero-padded. */
  function PaddedBlock(s: Bytes, i: nat): Block
    requires i < Count(|s|)
  {
    var end := if 16 * i + 16 < |s| then 16 * i + 16 else |s|;
    s[16 * i..end] + Zeros(16 - (end - 16 * i))
  }

  lemma ChunkOfPadded(s: Bytes, i: nat)
    requires i < Count(|s|)
    ensures Chunk(Padded(s), i) == PaddedBlock(s, i)
  {
    hide Count;
    var p, b := Padded(s)[16 * i..16 * i + 16], PaddedBlock(s, i);
    forall k | 0 <= k < 16 ensures p[k] == b[k] {
      assert p[k] == Padded(s)[16 * i + k];
    }
  }

  lemma ChunkInside(pre: Bytes, s: Bytes, post: Bytes, base: nat, i: nat)
    requires |pre| == 16 * base && 16 * i + 16 <= |s|
    ensures Chunk(pre + s + post, base + i) == Chunk(s, i)
  {
    var a, b := Chunk(pre + s + post, base + i), Chunk(s, i);
    forall k | 0 <= k < 16 ensures a[k] == b[k] {
      assert a[k] == (pre + s + post)[16 * (base + i) + k];
    }
  }

  lemma FoldNext(h: Poly, m: Bytes, n: nat, x: Block, b: Block)
    requires 16 * n + 16 <= |m| && Chunk(m, n) == b && Bits(x) == Fold(h, m, n)
    ensures Product(Bits(XorBlock(x, b)), h) == Fold(h, m, n + 1)
  {
    hide Product, Bits, Chunk;
    BitsOfXor(x, b);
  }

  /** One loop over the blocks of s, which lies padded in m at block `base`. */
  method AbsorbPadded(h: Block, s: Bytes, x: array<Byte>, ghost m: Bytes, ghost base: nat)
    requires x.Length == 16
    requires 16 * (base + Count(|s|)) <= |m|
    requires forall i :: 0 <= i < Count(|s|) ==> Chunk(m, base + i) == PaddedBlock(s, i)
    requires Bits(x[..]) == Fold(Bits(h), m, base)
    modifies x
    ensures Bits(x[..]) == Fold(Bits(h), m, base + Count(|s|))
  {
    hide Fold, Product, Bits, Chunk, PaddedBlock, Count, XorBlock;
    var n := Count(|s|);
    for i := 0 to n
      invariant Bits(x[..]) == Fold(Bits(h), m, base + i)
    {
      var block := PaddedBlock(s, i);
      AbsorbBlock(h, block, x, m, base + i);
    }
  }

  method AbsorbBlock(h: Block, block: Block, x: array<Byte>, ghost m: Bytes, ghost n: nat)
    requires x.Length == 16
    requires 16 * n + 16 <= |m| && Chunk(m, n) == block
    requires Bits(x[..]) == Fold(Bits(h), m, n)
    modifies x
    ensures Bits(x[..]) == Fold(Bits(h), m, n + 1)
  {
    hide Fold, Product, Bits, Chunk, XorBlock;
    FoldNext(Bits(h), m, n, x[..], block);
    XorInto(x, block);
    var p := Multiply(x[..], h);
    forall i | 0 <= i < 16 {
      x[i] := p[i];
    }
    assert x[..] == p;
  }

  lemma InputChunks(aad: Bytes, ct: Bytes)
    ensures forall i :: 0 <= i < Count(|aad|) ==> Chunk(Input(aad, ct), i) == PaddedBlock(aad, i)
    ensures forall i :: 0 <= i < Count(|ct|) ==> Chunk(Input(aad, ct), Count(|aad|) + i) == PaddedBlock(ct, i)
    ensures Chunk(Input(aad, ct), Count(|aad|) + Count(|ct|)) == LengthBlock(|aad|, |ct|)
  {
    hide Count, Chunk, PaddedBlock, LengthBlock, Padded;
    var p, q, l := Padded(aad), Padded(ct), LengthBlock(|aad|, |ct|);
    assert Input(aad, ct) == p + q + l;
    forall i | 0 <= i < Count(|aad|) ensures Chunk(Input(aad, ct), i) == PaddedBlock(aad, i) {
      ChunkOfPadded(aad, i);
      ConcatAssoc(p, q, l);
      ChunkInFront(p, q + l, i);
    }
    forall i | 0 <= i < Count(|ct|) ensures Chunk(Input(aad, ct), Count(|aad|) + i) == PaddedBlock(ct, i) {
      ChunkOfPadded(ct, i);
      ChunkInside(p, q, l, Count(|aad|), i);
    }
    ChunkAtEnd(p + q, l, Count(|aad|) + Count(|ct|));
  }

  lemma ChunkInFront(s: Bytes, post: Bytes, i: nat)
    requires 16 * i + 16 <= |s|
    ensures Chunk(s + post, i) == Chunk(s, i)
  {
  }

  lemma ChunkAtEnd(pre: Bytes, b: Block, n: nat)
    requires |pre| == 16 * n
    ensures Chunk(pre + b, n) == b
  {
  }

  /** The general hash. */
  method ComputeGhash(h: Block, aad: Bytes, ct: Bytes) returns (r: Block)
    ensures Bits(r) == Ghash(Bits(h), aad, ct)
  {
    hide Fold, Product, Bits, Chunk, PaddedBlock, Count, XorBlock, Input, LengthBlock;
    ghost var m := Input(aad, ct);
    InputChunks(aad, ct);
    var x := new Byte[16](_ => 0);
    FoldNone(Bits(h), m, x[..]);
    AbsorbPadded(h, aad, x, m, 0);
    AbsorbPadded(h, ct, x, m, Count(|aad|));
    AbsorbBlock(h, LengthBlock(|aad|, |ct|), x, m, Count(|aad|) + Count(|ct|));
    r := x[..];
  }

  lemma FoldNone(h: Poly, m: Bytes, x: Block)
    requires forall j :: 0 <= j < 16 ==> x[j] == 0
    ensures Bits(x) == Fold(h, m, 0)
  {
    BitsOfZero(x);
  }

  // ---- src/bpf/gut_common.h ----------------------------------------------------

  const AAD_LEN := 34
  const CT_LEN := 128
  const X_AT := 0
  const TMP_AT := 16
  const BLOCK_AT := 32
  const TAG_AT := 48

  method Put(scratch: array<Byte>, off: nat, b: Block)
    requires off + 16 <= scratch.Length
    modifies scratch
    ensures scratch[off..off + 16] == b
    ensures off >= TMP_AT ==> scratch[X_AT..TMP_AT] == old(scratch[X_AT..TMP_AT])
    ensures forall i :: 0 <= i < scratch.Length && !(off <= i < off + 16) ==> scratch[i] == old(scratch[i])
  {
    forall i | 0 <= i < 16 {
      scratch[off + i] := b[i];
    }
  }

  /** The accumulator times the subkey after adding one block; the product passes through the temporary. */
  method GhashUpdate(h: Block, block: Block, scratch: array<Byte>, ghost m: Bytes, ghost n: nat)
    requires scratch.Length >= 64
    requires 16 * n + 16 <= |m| && Chunk(m, n) == block
    requires Bits(scratch[X_AT..TMP_AT]) == Fold(Bits(h), m, n)
    modifies scratch
    ensures Bits(scratch[X_AT..TMP_AT]) == Fold(Bits(h), m, n + 1)
    ensures forall i :: BLOCK_AT <= i < scratch.Length ==> scratch[i] == old(scratch[i])
  {
    hide Fold, Product, Bits, Chunk, XorBlock;
    FoldNext(Bits(h), m, n, scratch[X_AT..TMP_AT], block);
    Put(scratch, X_AT, XorBlock(scratch[X_AT..TMP_AT], block));
    var p := KernelMultiply(scratch[X_AT..TMP_AT], h);
    Put(scratch, TMP_AT, p);
    Put(scratch, X_AT, scratch[TMP_AT..BLOCK_AT]);
  }

  const LAST_BLOCK: Block := [0, 0, 0, 0, 0, 0, 0x01, 0x10, 0, 0, 0, 0, 0, 0, 0x04, 0x00]

  lemma LastBlockIsLengths()
    ensures LengthBlock(AAD_LEN, CT_LEN) == LAST_BLOCK
  {
    hide Be64, ToByte;
    assert BitLength(34) == 272 && BitLength(128) == 1024;
    SmallBytes();
    Be64OfSmall(272, 1, 16);
    Be64OfSmall(1024, 4, 0);
  }

  lemma Be64OfSmall(n: nat, a: nat, b: nat)
    requires a < 256 && b < 256 && n == 256 * a + b
    ensures Be64(n) == [0, 0, 0, 0, 0, 0, ToByte(a), ToByte(b)]
  {
    hide BaseDigit;
    LeadingZero(n, 0x1_0000);
    LeadingZero(n, 0x100_0000);
    LeadingZero(n, 0x1_0000_0000);
    LeadingZero(n, 0x100_0000_0000);
    LeadingZero(n, 0x1_0000_0000_0000);
    LeadingZero(n, 0x100_0000_0000_0000);
    LowDigits(n, a, b);
  }

  lemma LeadingZero(n: nat, weight: nat)
    requires n < weight
    ensures BaseDigit(n, weight) == 0
  {
    assert n / weight == 0;
  }

  lemma Quotients(a: nat, b: nat)
    requires a < 256 && b < 256
    ensures (256 * a + b) / 256 == a && (256 * a + b) % 256 == b && (256 * a + b) / 1 == 256 * a + b && a % 256 == a
  {
  }

  lemma LowDigits(n: nat, a: nat, b: nat)
    requires a < 256 && b < 256 && n == 256 * a + b
    ensures BaseDigit(n, 0x100) == ToByte(a) && BaseDigit(n, 1) == ToByte(b)
  {
    hide ToByte;
    Quotients(a, b);
  }

  lemma SmallBytes()
    ensures ToByte(0) == 0 && ToByte(1) == 1 && ToByte(4) == 4 && ToByte(16) == 16
  {
    SameByte(ToByte(1), 1);
    SameByte(ToByte(4), 4);
    SameByte(ToByte(16), 16);
  }

  lemma SameByte(a: Byte, b: Byte)
    requires Val(a) == Val(b)
    ensures a == b
  {
  }

  /** The fixed-size tag: three blocks of header, eight of ciphertext, the constant lengths. */
  method KernelTag(h: Block, aad: Bytes, ct: Bytes, j0: Block, scratch: array<Byte>)
    requires |aad| == AAD_LEN && |ct| == CT_LEN && scratch.Length >= 64
    modifies scratch
    ensures Bits(scratch[TAG_AT..TAG_AT + 16]) == Add(Bits(j0), Ghash(Bits(h), aad, ct))
  {
    hide Fold, Product, Bits, Chunk, XorBlock, Input, LengthBlock, PaddedBlock;
    ghost var m := Input(aad, ct);
    InputChunks(aad, ct);
    Put(scratch, X_AT, Zeros(16));
    FoldNone(Bits(h), m, scratch[X_AT..TMP_AT]);
    KernelHeader(h, aad, scratch, m);
    for i := 0 to 8
      invariant Bits(scratch[X_AT..TMP_AT]) == Fold(Bits(h), m, 3 + i)
    {
      FullBlock(ct, i);
      GhashUpdate(h, Chunk(ct, i), scratch, m, 3 + i);
    }
    LastBlockIsLengths();
    Put(scratch, BLOCK_AT, LAST_BLOCK);
    GhashUpdate(h, scratch[BLOCK_AT..TAG_AT], scratch, m, 11);
    BitsOfXor(j0, scratch[X_AT..TMP_AT]);
    Put(scratch, TAG_AT, XorBlock(j0, scratch[X_AT..TMP_AT]));
  }

  lemma FullBlock(s: Bytes, i: nat)
    requires 16 * i + 16 <= |s|
    ensures i < Count(|s|) && PaddedBlock(s, i) == Chunk(s, i)
  {
    assert Zeros(0) == [];
    assert i < Count(|s|);
  }

  method KernelHeader(h: Block, aad: Bytes, scratch: array<Byte>, ghost m: Bytes)
    requires |aad| == AAD_LEN && scratch.Length >= 64 && |m| >= 48
    requires forall i :: 0 <= i < Count(|aad|) ==> Chunk(m, i) == PaddedBlock(aad, i)
    requires Bits(scratch[X_AT..TMP_AT]) == Fold(Bits(h), m, 0)
    modifies scratch
    ensures Bits(scratch[X_AT..TMP_AT]) == Fold(Bits(h), m, 3)
  {
    hide Fold, Product, Bits, XorBlock;
    FullBlock(aad, 0);
    FullBlock(aad, 1);
    Put(scratch, BLOCK_AT, aad[..16]);
    GhashUpdate(h, scratch[BLOCK_AT..TAG_AT], scratch, m, 0);
    Put(scratch, BLOCK_AT, aad[16..32]);
    GhashUpdate(h, scratch[BLOCK_AT..TAG_AT], scratch, m, 1);
    var last: Block := [aad[32], aad[33]] + Zeros(14);
    assert PaddedBlock(aad, 2) == last;
    Put(scratch, BLOCK_AT, last);
    GhashUpdate(h, scratch[BLOCK_AT..TAG_AT], scratch, m, 2);
  }
}
