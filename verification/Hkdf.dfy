/** HMAC (section 2 of RFC 2104) and HKDF-Expand (section 2.3 of RFC 5869) over the streaming hash. */
module Hkdf {
  import opened Bytes
  import opened Sha256

  /** Inputs short enough for a 64-bit bit count. */
  const MAX_INPUT: nat := 0x1000_0000_0000_0000

  // ---- Any sequence of updates ---------------------------------------------

  function Joined(parts: seq<Bytes>): Bytes {
    if parts == [] then [] else Joined(parts[..|parts| - 1]) + parts[|parts| - 1]
  }

  /** Hashes parts one update at a time: only their concatenation matters. */
  method HashParts(c: Compression, parts: seq<Bytes>) returns (d: Bytes)
    requires |Joined(parts)| < MAX_INPUT
    ensures d == Digest(c, Joined(parts))
  {
    hide Digest;
    var s := new Sha256(c);
    var i := 0;
    assert parts[..0] == [];
    while i < |parts|
      invariant 0 <= i <= |parts|
      invariant s.Valid() && s.compress == c && s.Message() == Joined(parts[..i]) && fresh(s) && fresh(s.buf)
    {
      assert parts[..i + 1][..i] == parts[..i];
      s.Update(parts[i]);
      i := i + 1;
    }
    assert parts[..|parts|] == parts;
    d := s.Finalize();
  }

  /** `sha256`. */
  method Hash(c: Compression, data: Bytes) returns (d: Bytes)
    requires |data| < MAX_INPUT
    ensures d == Digest(c, data)
  {
    hide Digest;
    var s := new Sha256(c);
    assert [] + data == data;
    s.Update(data);
    d := s.Finalize();
  }

  // ---- HMAC ----------------------------------------------------------------

  /** The key, hashed when longer than a block, filled up with zeros. */
  function BlockKey(c: Compression, key: Bytes): (k: Bytes)
    ensures |k| == 64
  {
    if |key| > 64 then Digest(c, key) + Zeros(32) else key + Zeros(64 - |key|)
  }

  function XorPad(k: Bytes, pad: Byte): (r: Bytes)
    requires |k| == 64
    ensures |r| == 64
    ensures forall i :: 0 <= i < 64 ==> r[i] == XorByte(pad, k[i])
  {
    seq(64, i requires 0 <= i < 64 => XorByte(pad, k[i]))
  }

  function Hmac(c: Compression, key: Bytes, message: Bytes): (d: Bytes)
    ensures |d| == 32
  {
    var k := BlockKey(c, key);
    Digest(c, XorPad(k, 0x5C) + Digest(c, XorPad(k, 0x36) + message))
  }

  /** `hmac_sha256`: both hashes are fed in two updates. */
  method HmacSha256(c: Compression, key: Bytes, message: Bytes) returns (d: Bytes)
    requires |key| < MAX_INPUT && |message| < MAX_INPUT
    ensures d == Hmac(c, key, message)
  {
    hide Digest, XorByte;
    var k := new Byte[64](_ => 0);
    if |key| > 64 {
      var h := Hash(c, key);
      forall i | 0 <= i < 32 { k[i] := h[i]; }
    } else {
      forall i | 0 <= i < |key| { k[i] := key[i]; }
    }
    assert k[..] == BlockKey(c, key);
    var ipad, opad := XorPads(k[..]);
    d := TwoHashes(c, ipad, opad, message);
  }

  method XorPads(k: Bytes) returns (ipad: Bytes, opad: Bytes)
    requires |k| == 64
    ensures ipad == XorPad(k, 0x36) && opad == XorPad(k, 0x5C)
  {
    hide XorByte;
    var a, b := new Byte[64](_ => 0x36), new Byte[64](_ => 0x5C);
    var i := 0;
    while i < 64
      invariant 0 <= i <= 64
      invariant forall j :: 0 <= j < 64 ==> a[j] == if j < i then XorByte(0x36, k[j]) else 0x36
      invariant forall j :: 0 <= j < 64 ==> b[j] == if j < i then XorByte(0x5C, k[j]) else 0x5C
    {
      a[i] := XorByte(a[i], k[i]);
      b[i] := XorByte(b[i], k[i]);
      i := i + 1;
    }
    ipad, opad := a[..], b[..];
  }

  method TwoHashes(c: Compression, ipad: Bytes, opad: Bytes, message: Bytes) returns (d: Bytes)
    requires |ipad| == 64 && |opad| == 64 && |message| < MAX_INPUT
    ensures d == Digest(c, opad + Digest(c, ipad + message))
  {
    hide Digest;
    var inner := new Sha256(c);
    assert [] + ipad == ipad && [] + opad == opad;
    inner.Update(ipad);
    inner.Update(message);
    var innerHash := inner.Finalize();
    var outer := new Sha256(c);
    outer.Update(opad);
    outer.Update(innerHash);
    d := outer.Finalize();
  }

  /** p is the key under the pad byte, with the pad byte behind it up to a whole block. */
  ghost predicate PaddedKey(p: Bytes, key: Bytes, pad: Byte)
    requires |key| <= 64
  {
    |p| == 64 && forall i :: 0 <= i < 64 ==> p[i] == if i < |key| then key[i] ^ pad else pad
  }

  /** A padded key is determined by its definition. */
  lemma XorPadIs(p: Bytes, key: Bytes, pad: Byte)
    requires |key| <= 64 && PaddedKey(p, key, pad)
    ensures p == XorPad(key + Zeros(64 - |key|), pad)
  {
    var r := XorPad(key + Zeros(64 - |key|), pad);
    forall i | 0 <= i < 64 ensures p[i] == r[i] {
      assert i < |key| ==> key[i] ^ pad == XorByte(pad, key[i]);
      assert XorByte(pad, 0) == pad;
    }
  }

  /** HMAC under a key of at most a block: inner pad 0x36, outer pad 0x5C. */
  lemma HmacShortKey(c: Compression, key: Bytes, message: Bytes, p: Bytes, q: Bytes)
    requires |key| <= 64 && PaddedKey(p, key, 0x36) && PaddedKey(q, key, 0x5C)
    ensures Hmac(c, key, message) == Digest(c, q + Digest(c, p + message))
  {
    hide Digest, XorPad, PaddedKey;
    XorPadIs(p, key, 0x36);
    XorPadIs(q, key, 0x5C);
  }

  /** A longer key stands for its digest. */
  lemma HmacLongKey(c: Compression, key: Bytes, message: Bytes)
    requires |key| > 64
    ensures Hmac(c, key, message) == Hmac(c, Digest(c, key), message)
  {
    hide Digest;
  }

  // ---- HKDF-Expand ---------------------------------------------------------

  /** T(i) of section 2.3; the counter byte is cut to eight bits, which the section's limit of 255 never needs. */
  function T(c: Compression, prk: Bytes, info: Bytes, i: nat): (t: Bytes)
    ensures |t| == if i == 0 then 0 else 32
  {
    if i == 0 then [] else Hmac(c, prk, T(c, prk, info, i - 1) + info + [ToByte(i % 256)])
  }

  /** T(1) | T(2) | ... | T(n). */
  function Stream(c: Compression, prk: Bytes, info: Bytes, n: nat): (s: Bytes)
    ensures |s| == 32 * n
  {
    if n == 0 then [] else Stream(c, prk, info, n - 1) + T(c, prk, info, n)
  }

  lemma {:induction false} StreamPrefix(c: Compression, prk: Bytes, info: Bytes, m: nat, n: nat)
    requires m <= n
    ensures Stream(c, prk, info, n)[..32 * m] == Stream(c, prk, info, m)
    decreases n
  {
    hide T;
    if m < n {
      StreamPrefix(c, prk, info, m, n - 1);
      var s := Stream(c, prk, info, n);
      assert s[..32 * (n - 1)] == Stream(c, prk, info, n - 1);
      assert s[..32 * (n - 1)][..32 * m] == s[..32 * m];
    } else {
      var s := Stream(c, prk, info, n);
      assert s[..32 * m] == s;
    }
  }

  /** The output for length l: the first l bytes of the stream. */
  function Okm(c: Compression, prk: Bytes, info: Bytes, l: nat): (o: Bytes)
    ensures |o| == l
  {
    Stream(c, prk, info, (l + 31) / 32)[..l]
  }

  /** Asking for fewer bytes gives a prefix. */
  lemma OkmPrefix(c: Compression, prk: Bytes, info: Bytes, k: nat, l: nat)
    requires k <= l
    ensures Okm(c, prk, info, k) == Okm(c, prk, info, l)[..k]
  {
    hide Stream;
    var m, n := (k + 31) / 32, (l + 31) / 32;
    StreamPrefix(c, prk, info, m, n);
    var s := Stream(c, prk, info, n);
    assert s[..32 * m][..k] == s[..k] == s[..l][..k];
  }

  /** Byte j of the output comes from block j / 32 + 1. */
  lemma OkmAt(c: Compression, prk: Bytes, info: Bytes, l: nat, j: nat)
    requires j < l
    ensures Okm(c, prk, info, l)[j] == T(c, prk, info, j / 32 + 1)[j % 32]
  {
    hide T, Stream;
    StreamAt(c, prk, info, (l + 31) / 32, j);
  }

  /**
   The first block authenticates info and the byte 1; each later one of the section's 255 blocks authenticates
   the block before it, info, and its own number.
   */
  lemma BlockMessages(c: Compression, prk: Bytes, info: Bytes, i: nat, b: Byte)
    requires i > 1 && Val(b) == i
    ensures T(c, prk, info, 1) == Hmac(c, prk, info + [1])
    ensures T(c, prk, info, i) == Hmac(c, prk, T(c, prk, info, i - 1) + info + [b])
  {
    hide Hmac, T, ToByte, Val;
    Basics(c, prk, info);
    TStep(c, prk, info, 1);
    ValOfOne();
    CounterByte(1, 1);
    assert [] + info == info;
    CounterByte(i, b);
    TStep(c, prk, info, i);
  }

  lemma ValOfOne()
    ensures Val(1) == 1
  {
  }

  lemma CounterByte(i: nat, b: Byte)
    requires Val(b) == i
    ensures ToByte(i % 256) == b
  {
    hide ToByte, Val;
    assert i % 256 == i;
    SameValue(b, ToByte(i));
  }

  lemma SameValue(a: Byte, b: Byte)
    requires Val(a) == Val(b)
    ensures a == b
  {
  }

  lemma {:induction false} StreamAt(c: Compression, prk: Bytes, info: Bytes, n: nat, j: nat)
    requires j < 32 * n
    ensures Stream(c, prk, info, n)[j] == T(c, prk, info, j / 32 + 1)[j % 32]
  {
    hide T;
    if j < 32 * (n - 1) { StreamAt(c, prk, info, n - 1, j); }
  }

  /** One message of the loop, built in a 256-byte buffer: previous block, info, counter. */
  method BuildMessage(msg: array<Byte>, t: Bytes, info: Bytes, i: nat) returns (m: Bytes)
    requires msg.Length == 256 && |t| + |info| + 1 <= 256
    modifies msg
    ensures m == t + info + [ToByte(i % 256)]
  {
    hide ToByte;
    forall j | 0 <= j < |t| { msg[j] := t[j]; }
    forall j | 0 <= j < |info| { msg[|t| + j] := info[j]; }
    msg[|t| + |info|] := ToByte(i % 256);
    m := msg[..|t| + |info| + 1];
    assert forall j :: 0 <= j < |info| ==> m[|t| + j] == info[j];
    assert m[..|t|] == t && m[|t|..|t| + |info|] == info && m[|t| + |info|..] == [ToByte(i % 256)];
    assert m == m[..|t|] + m[|t|..|t| + |info|] + m[|t| + |info|..];
  }

  /**
   `hkdf_expand`.  The source asserts that each message fits its buffer, so it
   demands at most 255 bytes of info for one block and 223 for more.
   */
  method HkdfExpand(c: Compression, prk: Bytes, info: Bytes, okm: array<Byte>)
    requires |prk| == 32
    requires okm.Length > 0 ==> |info| <= 255
    requires okm.Length > 32 ==> |info| <= 223
    modifies okm
    ensures okm[..] == Okm(c, prk, info, okm.Length)
  {
    hide Hmac, T, Stream;
    var l := okm.Length;
    var n := (l + 31) / 32;
    var t: Bytes := [];
    var offset := 0;
    var msg := new Byte[256](_ => 0);
    Basics(c, prk, info);
    var i := 1;
    while i <= n
      invariant 1 <= i <= n + 1 && okm.Length == l && fresh(msg) && msg.Length == 256
      invariant offset == (if 32 * (i - 1) < l then 32 * (i - 1) else l)
      invariant t == T(c, prk, info, i - 1)
      invariant okm[..offset] == Stream(c, prk, info, i - 1)[..offset]
    {
      var m := BuildMessage(msg, t, info, i);
      TStep(c, prk, info, i);
      t := HmacSha256(c, prk, m);
      var len := if l - offset < 32 then l - offset else 32;
      forall j | 0 <= j < len { okm[offset + j] := t[j]; }
      StreamStep(c, prk, info, i, offset, len);
      assert okm[..offset + len] == okm[..offset] + t[..len];
      offset := offset + len;
      i := i + 1;
    }
    assert okm[..l] == okm[..];
  }

  lemma Basics(c: Compression, prk: Bytes, info: Bytes)
    ensures T(c, prk, info, 0) == [] && Stream(c, prk, info, 0) == []
  {
  }

  lemma TStep(c: Compression, prk: Bytes, info: Bytes, i: nat)
    requires i > 0
    ensures T(c, prk, info, i) == Hmac(c, prk, T(c, prk, info, i - 1) + info + [ToByte(i % 256)])
  {
  }

  lemma StreamStep(c: Compression, prk: Bytes, info: Bytes, i: nat, offset: nat, len: nat)
    requires i > 0 && offset == 32 * (i - 1) && len <= 32
    ensures Stream(c, prk, info, i)[..offset + len] == Stream(c, prk, info, i - 1)[..offset] + T(c, prk, info, i)[..len]
  {
    hide T;
  }
}
