/** `aes128_gcm_encrypt` with the block cipher as a parameter (section 7.1 of NIST SP 800-38D). */
module Gcm {
  import opened Bytes
  import opened Gf128
  import opened Ghash

  type Cipher = Block -> Block
  type Iv = b: Bytes | |b| == 12 witness Zeros(12)

  const WRAP := 0x1_0000_0000

  // ---- Specification -------------------------------------------------------

  /** `u32::to_be_bytes`. */
  function Be32(n: nat): (b: Bytes)
    requires n < WRAP
    ensures |b| == 4
  {
    [BaseDigit(n, 0x100_0000), BaseDigit(n, 0x1_0000), BaseDigit(n, 0x100), BaseDigit(n, 1)]
  }

  function J0(nonce: Iv): Block { nonce + [0, 0, 0, 1] }

  /** The counter block of plaintext block i; the counter is 32 bits wide and starts at two. */
  function CounterBlock(nonce: Iv, i: nat): Block { nonce + Be32((i + 2) % WRAP) }

  function KeyByte(aes: Cipher, nonce: Iv, j: nat): Byte { aes(CounterBlock(nonce, j / 16))[j % 16] }

  /** Counter mode: every byte added to its keystream byte. */
  function Ctr(aes: Cipher, nonce: Iv, p: Bytes): (c: Bytes)
    ensures |c| == |p|
    ensures forall j :: 0 <= j < |p| ==> c[j] == XorByte(p[j], KeyByte(aes, nonce, j))
  {
    seq(|p|, j requires 0 <= j < |p| => XorByte(p[j], KeyByte(aes, nonce, j)))
  }

  /** The authentication tag, as a bit string. */
  function Tag(aes: Cipher, nonce: Iv, aad: Bytes, ct: Bytes): Poly {
    Add(Bits(aes(J0(nonce))), Ghash.Ghash(Bits(aes(Zeros(16))), aad, ct))
  }

  // ---- Laws ------------------------------------------------------------------

  /** Encrypting a ciphertext under the same nonce gives the plaintext back. */
  lemma CtrInverts(aes: Cipher, nonce: Iv, p: Bytes)
    ensures Ctr(aes, nonce, Ctr(aes, nonce, p)) == p
  {
    hide XorByte, KeyByte;
    var r := Ctr(aes, nonce, Ctr(aes, nonce, p));
    forall j | 0 <= j < |p| ensures r[j] == p[j] {
      XorCancels(p[j], KeyByte(aes, nonce, j));
    }
  }

  function FromBe32(b: Bytes): nat
    requires |b| == 4
  {
    0x100_0000 * Val(b[0]) + 0x1_0000 * Val(b[1]) + 0x100 * Val(b[2]) + Val(b[3])
  }

  lemma Be32RoundTrip(n: nat)
    requires n < WRAP
    ensures FromBe32(Be32(n)) == n
  {
    hide ToByte, Val;
    var a, b, c := n / 0x100, n / 0x1_0000, n / 0x100_0000;
    assert n == 0x100 * a + n % 0x100 && n / 1 == n;
    assert b == a / 0x100 && c == b / 0x100;
    assert a == 0x100 * b + a % 0x100 && b == 0x100 * c + b % 0x100 && c % 0x100 == c;
  }

  lemma Be32OfOne()
    ensures Be32(1) == [0, 0, 0, 1]
  {
    hide BaseDigit, ToByte;
    LeadingZero(1, 0x1_0000);
    LeadingZero(1, 0x100_0000);
    LowDigits(1, 0, 1);
    SmallBytes();
  }

  lemma CounterBlocksEqual(nonce: Iv, m: nat, n: nat)
    requires m < WRAP && n < WRAP
    ensures nonce + Be32(m) == nonce + Be32(n) <==> m == n
  {
    hide Be32, FromBe32;
    if nonce + Be32(m) == nonce + Be32(n) {
      assert (nonce + Be32(m))[12..] == Be32(m) && (nonce + Be32(n))[12..] == Be32(n);
      Be32RoundTrip(m);
      Be32RoundTrip(n);
    }
  }

  /** Every block of an n-block plaintext has its own counter, none of them the tag's. */
  ghost predicate CountersFresh(nonce: Iv, n: nat) {
    && (forall i, j :: 0 <= i < j < n ==> CounterBlock(nonce, i) != CounterBlock(nonce, j))
    && (forall i :: 0 <= i < n ==> CounterBlock(nonce, i) != J0(nonce))
  }

  /** Counters are used once exactly up to 2^32 - 1 blocks, one more than the standard allows. */
  lemma CountersFreshIff(nonce: Iv, n: nat)
    ensures CountersFresh(nonce, n) <==> n <= WRAP - 1
  {
    hide Be32;
    Be32OfOne();
    if n <= WRAP - 1 {
      forall i, j | 0 <= i < j < n ensures CounterBlock(nonce, i) != CounterBlock(nonce, j) {
        CounterBlocksEqual(nonce, (i + 2) % WRAP, (j + 2) % WRAP);
      }
      forall i | 0 <= i < n ensures CounterBlock(nonce, i) != J0(nonce) {
        CounterBlocksEqual(nonce, (i + 2) % WRAP, 1);
      }
    } else {
      assert CounterBlock(nonce, WRAP - 1) == J0(nonce);
    }
  }

  /**
   The tag is the encrypted first counter block plus the polynomial in the encrypted zero block whose
   coefficients are the header, the ciphertext, both filled up with zeros, and the two bit lengths.
   */
  lemma TagFormula(aes: Cipher, nonce: Iv, aad: Bytes, ct: Bytes, a: nat, c: nat, m: Bytes)
    requires 16 * a - 16 < |aad| <= 16 * a && 16 * c - 16 < |ct| <= 16 * c
    requires |aad| < 0x2000_0000_0000_0000 && |ct| < 0x2000_0000_0000_0000
    requires m == aad + Zeros(16 * a - |aad|) + (ct + Zeros(16 * c - |ct|)) + (Be64(8 * |aad|) + Be64(8 * |ct|))
    ensures Tag(aes, nonce, aad, ct)
            == Add(Bits(aes(nonce + [0, 0, 0, 1])), Terms(Bits(aes(Zeros(16))), m, a + c + 1, a + c + 1))
  {
    hide Bits, Fold, Terms, Add, Be64;
    assert Count(|aad|) == a && Count(|ct|) == c;
    assert m == Input(aad, ct);
    FoldIsPolynomial(Bits(aes(Zeros(16))), m, a + c + 1);
  }

  // ---- src/crypto.rs -----------------------------------------------------------

  method EncryptBlock(aes: Cipher, nonce: Iv, p: Bytes, i: nat, ct: array<Byte>)
    requires ct.Length == |p| && 16 * i < |p|
    modifies ct
    ensures forall j :: 0 <= j < |p| ==>
              ct[j] == if 16 * i <= j < 16 * i + 16 then XorByte(p[j], KeyByte(aes, nonce, j)) else old(ct[j])
  {
    hide XorByte;
    var ks := aes(CounterBlock(nonce, i));
    var start := 16 * i;
    var end := if start + 16 < |p| then start + 16 else |p|;
    for j := start to end
      invariant forall k :: 0 <= k < |p| ==>
                  ct[k] == if start <= k < j then XorByte(p[k], KeyByte(aes, nonce, k)) else old(ct[k])
    {
      KeyOf(aes, nonce, i, j - start);
      ct[j] := XorByte(p[j], ks[j - start]);
    }
  }

  lemma KeyOf(aes: Cipher, nonce: Iv, i: nat, k: nat)
    requires k < 16
    ensures KeyByte(aes, nonce, 16 * i + k) == aes(CounterBlock(nonce, i))[k]
  {
    hide CounterBlock;
    assert (16 * i + k) / 16 == i && (16 * i + k) % 16 == k;
  }

  /** Ciphertext by counter mode, tag by GHASH over it. */
  method Encrypt(aes: Cipher, nonce: Iv, aad: Bytes, p: Bytes, ct: array<Byte>) returns (tag: Block)
    requires ct.Length == |p|
    modifies ct
    ensures ct[..] == Ctr(aes, nonce, p)
    ensures Bits(tag) == Tag(aes, nonce, aad, Ctr(aes, nonce, p))
  {
    hide XorByte, KeyByte, Bits, Ghash.Ghash, Count;
    var h := aes(Zeros(16));
    var n := Count(|p|);
    for i := 0 to n
      invariant forall j :: 0 <= j < |p| && j < 16 * i ==> ct[j] == XorByte(p[j], KeyByte(aes, nonce, j))
    {
      EncryptBlock(aes, nonce, p, i, ct);
    }
    assert ct[..] == Ctr(aes, nonce, p);
    var g := ComputeGhash(h, aad, ct[..]);
    var e := aes(J0(nonce));
    BitsOfXor(e, g);
    tag := XorBlock(e, g);
  }

  // ---- src/bpf/gut_common.h ------------------------------------------------------

  lemma SmallCounter(nonce: Iv, i: nat)
    requires i < 8
    ensures CounterBlock(nonce, i) == nonce + [0, 0, 0, ToByte(i + 2)]
  {
    hide BaseDigit, ToByte;
    LeadingZero(i + 2, 0x1_0000);
    LeadingZero(i + 2, 0x100_0000);
    LowDigits(i + 2, 0, i + 2);
    SmallBytes();
  }

  /** One pass of the counter loop: the block with last byte i + 2 is added to 16 bytes in place. */
  method AddCounterBlock(aes: Cipher, nonce: Iv, i: nat, cf: array<Byte>)
    requires cf.Length == CT_LEN && i < 8
    modifies cf
    ensures forall j :: 0 <= j < CT_LEN ==>
              cf[j] == if 16 * i <= j < 16 * i + 16 then XorByte(old(cf[j]), KeyByte(aes, nonce, j)) else old(cf[j])
  {
    hide XorByte, KeyByte, CounterBlock, ToByte;
    SmallCounter(nonce, i);
    var ks := aes(nonce + [0, 0, 0, ToByte(i + 2)]);
    for j := 0 to 16
      invariant forall k :: 0 <= k < CT_LEN ==>
                  cf[k] == if 16 * i <= k < 16 * i + j then XorByte(old(cf[k]), KeyByte(aes, nonce, k)) else old(cf[k])
    {
      KeyOf(aes, nonce, i, j);
      cf[16 * i + j] := XorByte(cf[16 * i + j], ks[j]);
    }
  }

  /** The kernel's seal of a 34-byte header and 128 bytes in place leaves the ciphertext and tag of `Encrypt`. */
  method KernelSeal(aes: Cipher, nonce: Iv, aad: Bytes, cf: array<Byte>, scratch: array<Byte>)
    requires |aad| == AAD_LEN && cf.Length == CT_LEN && scratch.Length >= 64 && cf != scratch
    modifies cf, scratch
    ensures cf[..] == Ctr(aes, nonce, old(cf[..]))
    ensures Bits(scratch[TAG_AT..TAG_AT + 16]) == Tag(aes, nonce, aad, Ctr(aes, nonce, old(cf[..])))
  {
    hide XorByte, KeyByte, Bits, Ghash.Ghash;
    for i := 0 to 8
      invariant forall j :: 0 <= j < CT_LEN ==>
                  cf[j] == if j < 16 * i then XorByte(old(cf[j]), KeyByte(aes, nonce, j)) else old(cf[j])
    {
      AddCounterBlock(aes, nonce, i, cf);
    }
    assert cf[..] == Ctr(aes, nonce, old(cf[..]));
    KernelTag(aes(Zeros(16)), aad, cf[..], aes(J0(nonce)), scratch);
  }

  /** A tag is fixed by its bits, so the two implementations return the same sixteen bytes. */
  lemma TagIsUnique(aes: Cipher, nonce: Iv, aad: Bytes, ct: Bytes, s: Block, t: Block)
    requires Bits(s) == Tag(aes, nonce, aad, ct) && Bits(t) == Tag(aes, nonce, aad, ct)
    ensures s == t
  {
    BitsInjective(s, t);
  }
}
