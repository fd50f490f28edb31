/** Streaming SHA-256 over an arbitrary compression function, against section 5.1.1 of FIPS 180-4. */
module Sha256 {
  import opened Bytes

  type Hash = h: seq<bv32> | |h| == 8 witness seq(8, _ => 0)
  type Block = b: Bytes | |b| == 64 witness seq(64, _ => 0)
  type Compression = (Hash, Block) -> Hash

  const H0: Hash := [0x6a09e667, 0xbb67ae85, 0x3c6ef372, 0xa54ff53a, 0x510e527f, 0x9b05688c, 0x1f83d9ab, 0x5be0cd19]

  // ---- Specification -------------------------------------------------------

  /** The compression function folded over the whole blocks of a message; a shorter rest is left out. */
  function Fold(c: Compression, h: Hash, m: Bytes): Hash
    decreases |m|
  {
    if |m| < 64 then h else Fold(c, c(h, m[..64]), m[64..])
  }

  /** Number of zero bytes between the 0x80 byte and the length. */
  function PadZeros(n: nat): (z: nat)
    ensures z < 64
  {
    if n % 64 <= 55 then 55 - n % 64 else 119 - n % 64
  }

  /** It is the least number that leaves exactly eight bytes of the last block. */
  lemma PadZerosIsLeast(n: nat, z: nat)
    ensures (n + 1 + PadZeros(n)) % 64 == 56
    ensures (n + 1 + z) % 64 == 56 ==> PadZeros(n) <= z
  {
    var q, r := n / 64, n % 64;
    assert n == 64 * q + r;
    if z < PadZeros(n) {
      if r <= 55 {
        assert n + 1 + z == 64 * q + (r + 1 + z);
      } else {
        assert n + 1 + z == 64 * q + (r + 1 + z);
        if r + 1 + z >= 64 {
          assert n + 1 + z == 64 * (q + 1) + (r + 1 + z - 64);
        }
      }
    } else if r <= 55 {
      assert n + 1 + PadZeros(n) == 64 * q + 56;
    } else {
      assert n + 1 + PadZeros(n) == 64 * (q + 1) + 56;
    }
  }

  function Padding(n: nat): (p: Bytes)
    ensures |p| == 9 + PadZeros(n)
  {
    [0x80] + Zeros(PadZeros(n)) + Be64(BitLength(n))
  }

  function Words(h: Hash): (b: Bytes)
    ensures |b| == 32
  {
    BeBytes(h[0]) + BeBytes(h[1]) + BeBytes(h[2]) + BeBytes(h[3]) + BeBytes(h[4]) + BeBytes(h[5]) + BeBytes(h[6])
        + BeBytes(h[7])
  }

  /** The one-shot hash of a message. */
  function Digest(c: Compression, m: Bytes): (d: Bytes)
    ensures |d| == 32
  {
    Words(Fold(c, H0, m + Padding(|m|)))
  }

  // ---- Folding -------------------------------------------------------------

  /** A fold over whole blocks continues with what follows. */
  lemma {:induction false} FoldConcat(c: Compression, h: Hash, a: Bytes, b: Bytes, k: nat)
    requires |a| == 64 * k
    ensures Fold(c, h, a + b) == Fold(c, Fold(c, h, a), b)
    decreases k
  {
    if k == 0 {
      assert a + b == b;
    } else {
      assert (a + b)[..64] == a[..64] && (a + b)[64..] == a[64..] + b;
      FoldConcat(c, c(h, a[..64]), a[64..], b, k - 1);
    }
  }

  lemma FoldBlock(c: Compression, h: Hash, a: Bytes, b: Block, k: nat)
    requires |a| == 64 * k
    ensures Fold(c, h, a + b) == c(Fold(c, h, a), b)
  {
    FoldConcat(c, h, a, b, k);
    assert b[..64] == b && b[64..] == [];
  }

  // ---- What the digest is ----------------------------------------------------

  /** The value of a big-endian byte string. */
  function Value(b: Bytes): nat {
    if b == [] then 0 else 256 * Value(b[..|b| - 1]) + Val(b[|b| - 1])
  }

  lemma ValueNext(b: Bytes, x: Byte)
    ensures Value(b + [x]) == 256 * Value(b) + Val(x)
  {
    assert (b + [x])[..|b|] == b;
  }

  lemma NextDigit(n: nat, weight: nat)
    requires weight > 0
    ensures n / weight == 256 * (n / weight / 256) + Val(BaseDigit(n, weight))
  {
    hide ToByte, Val;
  }

  /** Eight bytes, most significant first. */
  lemma Be64Means(n: nat)
    requires n < 0x1_0000_0000_0000_0000
    ensures Value(Be64(n)) == n
  {
    hide Value, BaseDigit;
    var b := Be64(n);
    assert Value([]) == 0 by { EmptyValue(); }
    assert n / 0x100_0000_0000_0000 / 256 == 0;
    ValueUpTo(n, b, 0x100_0000_0000_0000, 0);
    assert n / 0x1_0000_0000_0000 / 256 == n / 0x100_0000_0000_0000;
    ValueUpTo(n, b, 0x1_0000_0000_0000, 1);
    assert n / 0x100_0000_0000 / 256 == n / 0x1_0000_0000_0000;
    ValueUpTo(n, b, 0x100_0000_0000, 2);
    assert n / 0x1_0000_0000 / 256 == n / 0x100_0000_0000;
    ValueUpTo(n, b, 0x1_0000_0000, 3);
    assert n / 0x100_0000 / 256 == n / 0x1_0000_0000;
    ValueUpTo(n, b, 0x100_0000, 4);
    assert n / 0x1_0000 / 256 == n / 0x100_0000;
    ValueUpTo(n, b, 0x1_0000, 5);
    assert n / 0x100 / 256 == n / 0x1_0000;
    ValueUpTo(n, b, 0x100, 6);
    assert n / 1 / 256 == n / 0x100;
    ValueUpTo(n, b, 1, 7);
    assert b[..8] == b && n / 1 == n;
  }

  lemma EmptyValue()
    ensures Value([]) == 0
  {
  }

  lemma ValueUpTo(n: nat, b: Bytes, weight: nat, i: nat)
    requires i < |b| && weight > 0 && b[i] == BaseDigit(n, weight)
    requires Value(b[..i]) == n / weight / 256
    ensures Value(b[..i + 1]) == n / weight
  {
    hide Value, BaseDigit, Val;
    assert b[..i + 1] == b[..i] + [b[i]];
    ValueNext(b[..i], b[i]);
    NextDigit(n, weight);
  }

  /** A message of at most 55 bytes is one block: the message, 0x80, zeros, the bit length in eight bytes. */
  lemma DigestOfOneBlock(c: Compression, m: Bytes, b: Block)
    requires |m| <= 55 && b[..|m|] == m && b[|m|] == 0x80 && (forall i :: |m| < i < 56 ==> b[i] == 0)
    requires Value(b[56..]) == 8 * |m|
    ensures Digest(c, m) == Words(c(H0, b))
  {
    hide Words, Be64, Value;
    var p := m + Padding(|m|);
    assert p[..56] == b[..56];
    Be64Means(8 * |m|);
    SameValues(b[56..], Be64(8 * |m|));
    assert p == p[..56] + Be64(8 * |m|) && b == b[..56] + b[56..];
    FoldBlock(c, H0, [], b, 0);
    assert [] + b == b;
  }

  /** Strings of equal length and value are equal. */
  lemma {:induction false} SameValues(a: Bytes, b: Bytes)
    requires |a| == |b| && Value(a) == Value(b)
    ensures a == b
  {
    if a != [] {
      hide Val;
      var n := |a| - 1;
      SameDigits(Value(a[..n]), Value(b[..n]), Val(a[n]), Val(b[n]));
      SameValues(a[..n], b[..n]);
      SameLast(a[n], b[n]);
      assert a == a[..n] + [a[n]] && b == b[..n] + [b[n]];
    }
  }

  lemma SameDigits(x: nat, y: nat, u: nat, v: nat)
    requires u < 256 && v < 256 && 256 * x + u == 256 * y + v
    ensures x == y && u == v
  {
  }

  lemma SameLast(x: Byte, y: Byte)
    ensures Val(x) == Val(y) ==> x == y
  {
  }

  /** h holds the first 32 bits behind the point of the square root of p, whose whole part is k. */
  ghost predicate RootOf(p: nat, k: nat, h: bv32) {
    var a := 0x1_0000_0000 * k + h as nat;
    a * a <= p * 0x1_0000_0000_0000_0000 < (a + 1) * (a + 1)
  }

  /** The initial state of section 5.3.3: the square roots of the first eight primes. */
  lemma InitialState()
    ensures RootOf(2, 1, H0[0]) && RootOf(3, 1, H0[1]) && RootOf(5, 2, H0[2]) && RootOf(7, 2, H0[3])
    ensures RootOf(11, 3, H0[4]) && RootOf(13, 3, H0[5]) && RootOf(17, 4, H0[6]) && RootOf(19, 4, H0[7])
  {
    hide RootOf;
    FirstRoots();
    LastRoots();
  }

  lemma FirstRoots()
    ensures RootOf(2, 1, H0[0]) && RootOf(3, 1, H0[1]) && RootOf(5, 2, H0[2]) && RootOf(7, 2, H0[3])
  {
  }

  lemma LastRoots()
    ensures RootOf(11, 3, H0[4]) && RootOf(13, 3, H0[5]) && RootOf(17, 4, H0[6]) && RootOf(19, 4, H0[7])
  {
  }

  /** The digest is the eight state words, each most significant byte first. */
  lemma WordsAt(h: Hash, i: nat)
    requires i < 8
    ensures Words(h)[4 * i..4 * i + 4] == BeBytes(h[i])
  {
    hide BeBytes;
  }

  // ---- The object ----------------------------------------------------------

  class Sha256 {
    const compress: Compression
    var h: Hash
    var buf: array<Byte>
    var bufLen: nat
    var totalLen: nat
    ghost var blocks: Bytes
    ghost var count: nat

    /** The hash state covers the whole blocks seen so far; the buffer holds the rest. */
    ghost predicate Valid()
      reads this, buf
    {
      && buf.Length == 64 && bufLen < 64
      && |blocks| == 64 * count
      && h == Fold(compress, H0, blocks)
      && totalLen == Wrap64(|blocks| + bufLen)
    }

    /** Everything fed in so far. */
    ghost function Message(): Bytes
      reads this, buf
      requires Valid()
    {
      blocks + buf[..bufLen]
    }

    constructor (c: Compression)
      ensures Valid() && Message() == [] && compress == c && fresh(buf)
    {
      compress := c;
      h := H0;
      buf := new Byte[64](_ => 0);
      bufLen, totalLen := 0, 0;
      blocks, count := [], 0;
    }

    /** Compresses one block behind those already folded. */
    method Absorb(b: Block)
      requires |blocks| == 64 * count && h == Fold(compress, H0, blocks)
      modifies this`h, this`blocks, this`count
      ensures blocks == old(blocks) + b && |blocks| == 64 * count && h == Fold(compress, H0, blocks)
    {
      FoldBlock(compress, H0, blocks, b, count);
      h := compress(h, b);
      blocks, count := blocks + b, count + 1;
    }

    /** Overwrites the buffer from a position on. */
    method Fill(off: nat, s: Bytes)
      requires buf.Length == 64 && off + |s| <= 64
      modifies buf
      ensures buf[..off + |s|] == old(buf[..off]) + s
    {
      forall i | 0 <= i < |s| {
        buf[off + i] := s[i];
      }
      assert buf[..off + |s|] == buf[..off] + buf[off..off + |s|];
      assert buf[..off] == old(buf[..off]) && buf[off..off + |s|] == s;
    }

    /** The first part of `update`: top up a partly filled buffer. */
    method TopUp(data: Bytes) returns (offset: nat)
      requires buf.Length == 64 && 0 < bufLen < 64 && |blocks| == 64 * count && h == Fold(compress, H0, blocks)
      modifies this`h, this`blocks, this`count, this`bufLen, buf
      ensures offset <= |data| && bufLen < 64 && (bufLen > 0 ==> offset == |data|)
      ensures |blocks| == 64 * count && h == Fold(compress, H0, blocks)
      ensures blocks + buf[..bufLen] == old(blocks + buf[..bufLen]) + data[..offset]
    {
      ghost var m, rest := blocks, buf[..bufLen];
      var fill := 64 - bufLen;
      offset := if |data| < fill then |data| else fill;
      Fill(bufLen, data[..offset]);
      bufLen := bufLen + offset;
      ConcatAssoc(m, rest, data[..offset]);
      if bufLen == 64 {
        Absorb(buf[..64]);
        bufLen := 0;
        assert blocks + buf[..0] == blocks;
      }
    }

    /** The block loop of `update`, entered with an empty buffer or no data left. */
    method AbsorbAll(data: Bytes, start: nat) returns (offset: nat)
      requires start <= |data| && buf.Length == 64 && |blocks| == 64 * count && h == Fold(compress, H0, blocks)
      modifies this`h, this`blocks, this`count
      ensures start <= offset <= |data| && |data| - offset < 64
      ensures start == |data| ==> offset == start && blocks == old(blocks)
      ensures |blocks| == 64 * count && h == Fold(compress, H0, blocks)
      ensures blocks == old(blocks) + data[start..offset]
    {
      hide Fold;
      offset := start;
      ghost var m := blocks;
      assert m + data[start..start] == m;
      while offset + 64 <= |data|
        invariant start <= offset <= |data| && (start == |data| ==> offset == start && blocks == m)
        invariant |blocks| == 64 * count && h == Fold(compress, H0, blocks)
        invariant blocks == m + data[start..offset]
      {
        ghost var b := data[offset..offset + 64];
        assert data[start..offset + 64] == data[start..offset] + b;
        ConcatAssoc(m, data[start..offset], b);
        Absorb(data[offset..offset + 64]);
        offset := offset + 64;
      }
    }

    /** Keeps what is left behind the whole blocks for later. */
    method KeepRest(data: Bytes, start: nat, offset: nat, ghost m: Bytes, ghost top: Bytes)
      requires buf.Length == 64 && bufLen < 64 && start <= offset <= |data| < offset + 64
      requires blocks == top + data[start..offset] && top + buf[..bufLen] == m + data[..start]
      requires start < |data| ==> bufLen == 0
      modifies this`bufLen, buf
      ensures bufLen < 64 && blocks + buf[..bufLen] == m + data
    {
      var remaining := |data| - offset;
      if remaining > 0 {
        assert buf[..bufLen] == [] && top + [] == top;
        Fill(0, data[offset..]);
        assert buf[..remaining] == data[offset..];
        bufLen := remaining;
        UpdateParts(m, top, data, start, offset);
      } else if bufLen == 0 {
        assert buf[..0] == [] && top + [] == top && blocks + [] == blocks;
        UpdateParts(m, top, data, start, offset);
        assert data[offset..] == [];
      } else {
        assert data[start..offset] == [] && data[..start] == data;
      }
    }

    /** `update`: however the input is split, the message grows by exactly the data. */
    method Update(data: Bytes)
      requires Valid()
      modifies this`h, this`blocks, this`count, this`bufLen, this`totalLen, buf
      ensures Valid() && Message() == old(Message()) + data
    {
      hide Fold, Wrap64;
      ghost var m := Message();
      Lengths(|m|, |data|);
      totalLen := Wrap64(totalLen + |data|);
      var start := 0;
      if bufLen > 0 {
        start := TopUp(data);
      }
      assert blocks + buf[..bufLen] == m + data[..start];
      ghost var top := blocks;
      var offset := AbsorbAll(data, start);
      KeepRest(data, start, offset, m, top);
      assert |blocks| + bufLen == |blocks + buf[..bufLen]| == |m| + |data|;
    }

    /** Completes the buffered block with bytes up to its end and compresses it. */
    method Complete(s: Bytes, ghost front: Bytes)
      requires buf.Length == 64 && bufLen + |s| == 64 && |blocks| == 64 * count && h == Fold(compress, H0, blocks)
      requires blocks + buf[..bufLen] == front
      modifies this`h, this`blocks, this`count, this`bufLen, buf
      ensures bufLen == 0 && blocks == front + s && |blocks| == 64 * count && h == Fold(compress, H0, blocks)
    {
      hide Fold;
      ConcatAssoc(blocks, buf[..bufLen], s);
      Fill(bufLen, s);
      Absorb(buf[..64]);
      bufLen := 0;
    }

    /** `finalize`: the hash of everything fed in, independent of the splitting. */
    method Finalize() returns (out: Bytes)
      requires Valid()
      modifies this`h, this`blocks, this`count, this`bufLen, buf
      ensures |old(Message())| < 0x2000_0000_0000_0000 ==> out == Digest(compress, old(Message()))
    {
      hide Fold, Be64, Wrap64;
      ghost var m := Message();
      Remainder(count, bufLen);
      assert |m| % 64 == bufLen;
      var bits := Be64(BitLength(totalLen));
      ConcatAssoc(blocks, buf[..bufLen], [0x80]);
      Fill(bufLen, [0x80]);
      bufLen := bufLen + 1;
      ghost var front := m + [0x80];
      if bufLen > 56 {
        var z := 64 - bufLen;
        Complete(Zeros(z), front);
        front := front + Zeros(z);
        assert blocks + buf[..0] == front;
      }
      var z := 56 - bufLen;
      Complete(Zeros(z) + bits, front);
      ConcatAssoc(front, Zeros(z), bits);
      PaddedMessage(m, front, z, bits);
      out := BeBytes(h[0]) + BeBytes(h[1]) + BeBytes(h[2]) + BeBytes(h[3]) + BeBytes(h[4]) + BeBytes(h[5])
          + BeBytes(h[6]) + BeBytes(h[7]);
    }
  }

  lemma Remainder(k: nat, r: nat)
    requires r < 64
    ensures (64 * k + r) % 64 == r
  {
  }

  lemma Lengths(m: nat, d: nat)
    ensures Wrap64(Wrap64(m) + d) == Wrap64(m + d)
  {
  }

  lemma UpdateParts(m: Bytes, top: Bytes, data: Bytes, start: nat, offset: nat)
    requires start <= offset <= |data| && top == m + data[..start]
    ensures top + data[start..offset] + data[offset..] == m + data
  {
    assert data == data[..start] + data[start..offset] + data[offset..];
    ConcatAssoc(m, data[..start], data[start..offset]);
    ConcatAssoc(m, data[..start] + data[start..offset], data[offset..]);
  }

  /** The bytes `finalize` appends are the padding. */
  lemma PaddedMessage(m: Bytes, front: Bytes, z: nat, bits: Bytes)
    requires |m| < 0x2000_0000_0000_0000 ==> bits == Be64(BitLength(|m|))
    requires if |m| % 64 <= 55 then front == m + [0x80] && z == 55 - |m| % 64
             else front == m + [0x80] + Zeros(63 - |m| % 64) && z == 56
    ensures |m| < 0x2000_0000_0000_0000 ==> front + Zeros(z) + bits == m + Padding(|m|)
  {
    hide Be64;
    if |m| % 64 > 55 {
      assert Zeros(63 - |m| % 64) + Zeros(z) == Zeros(PadZeros(|m|));
    }
  }
}
