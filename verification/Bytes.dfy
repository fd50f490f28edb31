/** Byte strings, little- and big-endian words, pointwise XOR, and slices. */
module Bytes {

  type Byte = bv8
  type Bytes = seq<Byte>

  /** Size of the kernel programs' scratch buffer. */
  const SCRATCH: nat := 16384

  datatype Option<+T> = None | Some(value: T)

  /** `u32::to_le_bytes`. */
  function LeBytes(w: bv32): (b: Bytes)
    ensures |b| == 4
  {
    [(w & 0xFF) as Byte, ((w >> 8) & 0xFF) as Byte, ((w >> 16) & 0xFF) as Byte, ((w >> 24) & 0xFF) as Byte]
  }

  /** `u32::from_le_bytes`. */
  function LeWord(b: Bytes): (w: bv32)
    requires |b| == 4
  {
    (b[0] as bv32) | ((b[1] as bv32) << 8) | ((b[2] as bv32) << 16) | ((b[3] as bv32) << 24)
  }

  /** `u32::to_be_bytes`. */
  function BeBytes(w: bv32): (b: Bytes)
    ensures |b| == 4
  {
    [((w >> 24) & 0xFF) as Byte, ((w >> 16) & 0xFF) as Byte, ((w >> 8) & 0xFF) as Byte, (w & 0xFF) as Byte]
  }

  lemma LeWordOfBytes(w: bv32)
    ensures LeWord(LeBytes(w)) == w
  {
  }

  lemma LeBytesOfWord(b: Bytes)
    requires |b| == 4
    ensures LeBytes(LeWord(b)) == b
  {
    var c := LeBytes(LeWord(b));
    assert c[0] == b[0] && c[1] == b[1] && c[2] == b[2] && c[3] == b[3];
  }

  /** Sixteen 32-bit words: one keystream block. */
  type Words = w: seq<bv32> | |w| == 16 witness seq(16, _ => 0)

  /** The 64-byte little-endian view of a block. */
  function WordBytes(w: Words): (b: Bytes)
    ensures |b| == 64
    ensures forall i :: 0 <= i < 64 ==> b[i] == LeBytes(w[i / 4])[i % 4]
  {
    seq(64, i requires 0 <= i < 64 => LeBytes(w[i / 4])[i % 4])
  }

  function XorWord(x: bv32, y: bv32): bv32 { x ^ y }

  function XorByte(x: Byte, k: Byte): Byte { x ^ k }

  lemma XorCancels(x: Byte, k: Byte)
    ensures XorByte(XorByte(x, k), k) == x
  {
  }

  lemma XorZero(x: Byte)
    ensures XorByte(x, 0) == x
  {
  }

  // ---- Numbers -----------------------------------------------------------

  function Val(b: Byte): (n: nat)
    ensures n < 256
  {
    b as nat
  }

  lemma NextByte(b: Byte)
    requires Val(b) < 255
    ensures Val(b + 1) == Val(b) + 1
  {
    assert b < 255;
  }

  /** The byte with value n. */
  function ToByte(n: nat): (b: Byte)
    requires n < 256
    ensures Val(b) == n
  {
    if n == 0 then 0
    else
      NextByte(ToByte(n - 1));
      ToByte(n - 1) + 1
  }

  /** `u16::from_be_bytes`. */
  function Be16(b: Bytes): (n: nat)
    requires |b| == 2
    ensures n < 65536
  {
    256 * Val(b[0]) + Val(b[1])
  }

  function ToBe16(n: nat): (b: Bytes)
    requires n < 65536
    ensures |b| == 2
  {
    [ToByte(n / 256), ToByte(n % 256)]
  }

  lemma Be16RoundTrip(n: nat)
    requires n < 65536
    ensures Be16(ToBe16(n)) == n
  {
    hide Val, ToByte;
  }

  function Zeros(n: nat): (z: Bytes)
    ensures |z| == n
  {
    seq(n, _ => 0)
  }

  /** The base-256 digit of n with the given weight. */
  function BaseDigit(n: nat, weight: nat): Byte
    requires weight > 0
  {
    ToByte(n / weight % 256)
  }

  /** `u64::to_be_bytes`. */
  function Be64(n: nat): (b: Bytes)
    requires n < 0x1_0000_0000_0000_0000
    ensures |b| == 8
  {
    [ BaseDigit(n, 0x100_0000_0000_0000), BaseDigit(n, 0x1_0000_0000_0000), BaseDigit(n, 0x100_0000_0000),
        BaseDigit(n, 0x1_0000_0000),
      BaseDigit(n, 0x100_0000), BaseDigit(n, 0x1_0000), BaseDigit(n, 0x100), BaseDigit(n, 1) ]
  }

  /** 64-bit wrap-around. */
  function Wrap64(n: nat): (w: nat)
    ensures w < 0x1_0000_0000_0000_0000
    ensures n < 0x1_0000_0000_0000_0000 ==> w == n
  {
    n % 0x1_0000_0000_0000_0000
  }

  /** The bit length as the source stores it. */
  function BitLength(n: nat): (b: nat)
    ensures b < 0x1_0000_0000_0000_0000
  {
    Wrap64(8 * n)
  }

  // ---- Slices ------------------------------------------------------------

  lemma SliceOfSlice(s: Bytes, a: nat, b: nat, i: nat, j: nat)
    requires a <= b <= |s| && i <= j && a + j <= b
    ensures s[a..b][i..j] == s[a + i..a + j]
  {
    var t, u := s[a..b][i..j], s[a + i..a + j];
    assert |t| == |u|;
    forall k | 0 <= k < j - i ensures t[k] == u[k] {
      assert t[k] == s[a..b][i + k] == s[a + (i + k)];
    }
  }

  /** A prefix extended by the next slice. */
  lemma Cut(s: Bytes, i: nat, j: nat)
    requires i <= j <= |s|
    ensures s[..j] == s[..i] + s[i..j]
  {
  }

  lemma SliceOfPrefix(s: Bytes, n: nat, i: nat, j: nat)
    requires i <= j <= n <= |s|
    ensures s[..n][i..j] == s[i..j]
  {
  }

  lemma SliceOfSuffix(s: Bytes, t: Bytes, h: nat, i: nat, j: nat)
    requires |s| == |t| && h <= i <= j <= |s| && s[h..] == t[h..]
    ensures s[i..j] == t[i..j]
  {
    assert s[i..j] == s[h..][i - h..j - h];
  }

  /** The middle of three parts. */
  lemma Middle(a: Bytes, b: Bytes, c: Bytes)
    ensures (a + b + c)[|a|..|a| + |b|] == b
  {
  }

  lemma ConcatAssoc(a: Bytes, b: Bytes, c: Bytes)
    ensures a + (b + c) == (a + b) + c
  {
  }

  // ---- Stores --------------------------------------------------------------

  /** d with s written over it at off. */
  function Splice(d: Bytes, off: nat, s: Bytes): (r: Bytes)
    requires off + |s| <= |d|
    ensures |r| == |d|
  {
    d[..off] + s + d[off + |s|..]
  }

  lemma SpliceParts(a: Bytes, b: Bytes, c: Bytes, s: Bytes)
    requires |s| == |b|
    ensures Splice(a + b + c, |a|, s) == a + s + c
  {
    var d := a + b + c;
    assert d[..|a|] == a && d[|a| + |b|..] == c;
  }

  /** A store inside the middle part. */
  lemma SpliceInside(a: Bytes, u: Bytes, c: Bytes, k: nat, s: Bytes)
    requires k + |s| <= |u|
    ensures Splice(a + u + c, |a| + k, s) == a + Splice(u, k, s) + c
  {
    var d, x, y := a + u + c, u[..k], u[k + |s|..];
    assert d[..|a| + k] == a + x;
    assert d[|a| + k + |s|..] == y + c;
    ConcatAssoc(a + x + s, y, c);
    ConcatAssoc(a, x, s);
    ConcatAssoc(a, x + s, y);
  }

  lemma SpliceAt(d: Bytes, off: nat, s: Bytes, i: nat)
    requires off + |s| <= |d| && i < |d|
    ensures Splice(d, off, s)[i] == if off <= i < off + |s| then s[i - off] else d[i]
  {
  }

  /** Two stores next to each other. */
  lemma SpliceExtend(d: Bytes, off: nat, s: Bytes, t: Bytes)
    requires off + |s| + |t| <= |d|
    ensures Splice(Splice(d, off, s), off + |s|, t) == Splice(d, off, s + t)
  {
    var e := Splice(d, off, s);
    assert e[..off + |s|] == d[..off] + s;
    assert e[off + |s| + |t|..] == d[off + |s| + |t|..];
    ConcatAssoc(d[..off], s, t);
  }

  /** What is read away from a store. */
  lemma SpliceElsewhere(d: Bytes, off: nat, s: Bytes, i: nat, j: nat)
    requires off + |s| <= |d| && i <= j <= |d| && (j <= off || off + |s| <= i)
    ensures Splice(d, off, s)[i..j] == d[i..j]
  {
    var e := Splice(d, off, s);
    if j <= off {
      assert e[..off] == d[..off];
      SliceOfPrefix(e, off, i, j);
      SliceOfPrefix(d, off, i, j);
    } else {
      assert e[off + |s|..] == d[off + |s|..];
      SliceOfSuffix(e, d, off + |s|, i, j);
    }
  }

  lemma SpliceRead(d: Bytes, off: nat, s: Bytes)
    requires off + |s| <= |d|
    ensures Splice(d, off, s)[off..off + |s|] == s
  {
    Middle(d[..off], s, d[off + |s|..]);
  }

  lemma SpliceNothing(d: Bytes, off: nat)
    requires off <= |d|
    ensures Splice(d, off, []) == d
  {
  }
}
