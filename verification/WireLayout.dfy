/**
 The wire format byte by byte: nonce, header fields, ports, masked regions and ballast of a datagram,
 read off the packet and the key stream with literal positions.
 */
module WireLayout {
  import opened Bytes
  import opened Codec
  import opened CodecLaws
  import opened KernelCodec

  // ---- Nonce ---------------------------------------------------------------

  function FourWords(a: bv32, b: bv32, c: bv32, d: bv32): bv32 { a ^ b ^ c ^ d }

  function FourBytes(a: Byte, b: Byte, c: Byte, d: Byte): Byte { a ^ b ^ c ^ d }

  lemma FourWordsByte0(a: bv32, b: bv32, c: bv32, d: bv32)
    ensures LeBytes(FourWords(a, b, c, d))[0] == FourBytes(LeBytes(a)[0], LeBytes(b)[0], LeBytes(c)[0], LeBytes(d)[0])
  {
  }

  lemma FourWordsByte1(a: bv32, b: bv32, c: bv32, d: bv32)
    ensures LeBytes(FourWords(a, b, c, d))[1] == FourBytes(LeBytes(a)[1], LeBytes(b)[1], LeBytes(c)[1], LeBytes(d)[1])
  {
  }

  lemma FourWordsByte2(a: bv32, b: bv32, c: bv32, d: bv32)
    ensures LeBytes(FourWords(a, b, c, d))[2] == FourBytes(LeBytes(a)[2], LeBytes(b)[2], LeBytes(c)[2], LeBytes(d)[2])
  {
  }

  lemma FourWordsByte3(a: bv32, b: bv32, c: bv32, d: bv32)
    ensures LeBytes(FourWords(a, b, c, d))[3] == FourBytes(LeBytes(a)[3], LeBytes(b)[3], LeBytes(c)[3], LeBytes(d)[3])
  {
  }

  lemma NonceWords(wg: Bytes)
    requires |wg| >= 32
    ensures Nonce(wg) == FourWords(LeWord(wg[16..20]), LeWord(wg[20..24]), LeWord(wg[24..28]), LeWord(wg[28..32]))
  {
    hide LeWord;
  }

  lemma NonceByte(wg: Bytes, j: nat)
    requires j < 4 && |wg| >= 32
    ensures LeBytes(Nonce(wg))[j] == FourBytes(wg[16 + j], wg[20 + j], wg[24 + j], wg[28 + j])
  {
    hide LeBytes, LeWord, Nonce, FourWords, FourBytes;
    NonceWords(wg);
    var a, b, c, d := LeWord(wg[16..20]), LeWord(wg[20..24]), LeWord(wg[24..28]), LeWord(wg[28..32]);
    LeBytesOfWord(wg[16..20]);
    LeBytesOfWord(wg[20..24]);
    LeBytesOfWord(wg[24..28]);
    LeBytesOfWord(wg[28..32]);
    match j
    case 0 => FourWordsByte0(a, b, c, d);
    case 1 => FourWordsByte1(a, b, c, d);
    case 2 => FourWordsByte2(a, b, c, d);
    case _ => FourWordsByte3(a, b, c, d);
  }

  /** The nonce folds bytes 16..32 of the packet four bytes at a time; a shorter packet has nonce zero. */
  lemma NonceBytes(wg: Bytes, j: nat)
    requires j < 4
    ensures |wg| < 32 ==> LeBytes(Nonce(wg)) == [0, 0, 0, 0]
    ensures |wg| >= 32 ==> LeBytes(Nonce(wg))[j] == wg[16 + j] ^ wg[20 + j] ^ wg[24 + j] ^ wg[28 + j]
  {
    if |wg| >= 32 {
      hide LeBytes, Nonce;
      NonceByte(wg, j);
    } else {
      assert LeBytes(0) == [0, 0, 0, 0];
    }
  }

  // ---- Fields --------------------------------------------------------------

  /** Word i of a block is bytes 4i..4i+4, least significant byte first. */
  lemma WordSlice(w: Words, i: nat)
    requires i < 16
    ensures WordBytes(w)[4 * i..4 * i + 4] == LeBytes(w[i])
  {
    hide LeBytes;
    var s := WordBytes(w)[4 * i..4 * i + 4];
    forall j | 0 <= j < 4 ensures s[j] == LeBytes(w[i])[j] {
      assert (4 * i + j) / 4 == i && (4 * i + j) % 4 == j;
    }
  }

  lemma ByteOrder()
    ensures LeBytes(0x04030201) == [1, 2, 3, 4] && BeBytes(0x01020304) == [1, 2, 3, 4]
  {
  }

  /** Four header bytes carrying both ports, destination first and each low byte first, under four key bytes. */
  ghost predicate PortField(f: Bytes, sport: bv16, dport: bv16, k: Bytes)
    requires |f| == 4 && |k| == 4
  {
    && f[0] == (dport & 0xFF) as Byte ^ k[0] && f[1] == (dport >> 8) as Byte ^ k[1]
    && f[2] == (sport & 0xFF) as Byte ^ k[2] && f[3] == (sport >> 8) as Byte ^ k[3]
  }

  lemma SealedLow(sport: bv16, dport: bv16, k: bv32)
    ensures LeBytes(SealPorts(sport, dport, k))[0] == (dport & 0xFF) as Byte ^ LeBytes(k)[0]
    ensures LeBytes(SealPorts(sport, dport, k))[1] == (dport >> 8) as Byte ^ LeBytes(k)[1]
  {
  }

  lemma SealedHigh(sport: bv16, dport: bv16, k: bv32)
    ensures LeBytes(SealPorts(sport, dport, k))[2] == (sport & 0xFF) as Byte ^ LeBytes(k)[2]
    ensures LeBytes(SealPorts(sport, dport, k))[3] == (sport >> 8) as Byte ^ LeBytes(k)[3]
  {
  }

  lemma SealedField(sport: bv16, dport: bv16, k: bv32)
    ensures PortField(LeBytes(SealPorts(sport, dport, k)), sport, dport, LeBytes(k))
  {
    hide LeBytes, SealPorts;
    SealedLow(sport, dport, k);
    SealedHigh(sport, dport, k);
  }

  /** The last header byte: zero without ballast, otherwise the ballast length plus 63. */
  ghost predicate BallastField(code: Byte, pad: int) {
    Val(code) == if pad == 0 then 0 else 63 + pad
  }

  lemma FlaggedCode(r: nat)
    requires r < 64
    ensures Val(0x40 | (ToByte(r) & 0x3F)) == 64 + r
  {
    hide ToByte, Val;
    LowBits(ToByte(r));
  }

  lemma LowBits(b: Byte)
    requires Val(b) < 64
    ensures Val(0x40 | (b & 0x3F)) == 64 + Val(b)
  {
    assert b < 64;
    assert 0x40 | (b & 0x3F) == 64 + b;
  }

  lemma CodeField(pad: nat)
    requires pad <= 64
    ensures BallastField(BallastCode(pad), pad)
  {
    hide ToByte;
    if pad > 0 { FlaggedCode(pad - 1); }
  }

  // ---- Packet and ballast --------------------------------------------------

  /**
   Ballast sizes, b being the last byte of the ballast block: GUT fills the UDP segment of a packet below 256
   bytes up to a multiple of 16, QUIC adds 1..64 bytes to packets below 220 bytes, Base64 modes 1..32 bytes,
   and 1..15 from 220 bytes on.
   */
  ghost predicate BallastSize(mode: Mode, n: nat, b: Byte, pad: int) {
    match mode
    case Gut => if n < 256 then 0 <= pad < 16 && (8 + 10 + n + pad) % 16 == 0 else pad == 0
    case Quic => pad == if n < 220 then Val(b % 64) + 1 else 0
    case _ =>
      if n < 220 then pad == Val(b % 32) + 1
      else pad == if Val(b % 16) < 15 then Val(b % 16) + 1 else 15
  }

  lemma LowBitsAreRemainders(b: Byte)
    ensures b & 0x3F == b % 64 && b & 0x1F == b % 32 && b & 0x0F == b % 16
  {
  }

  lemma BallastRight(mode: Mode, n: nat, b: Byte)
    ensures BallastSize(mode, n, b, BallastFor(mode, n, b))
  {
    LowBitsAreRemainders(b);
    if mode == Gut && n < 256 { FillsUp(18 + n); }
  }

  lemma FillsUp(n: nat)
    ensures n % 16 != 0 ==> (n + (16 - n % 16)) % 16 == 0
  {
    assert n == 16 * (n / 16) + n % 16;
    assert n % 16 != 0 ==> n + (16 - n % 16) == 16 * (n / 16 + 1);
  }

  /** Key byte over packet byte i; k is the 64-byte mask block and ty the low five bits of the first byte. */
  function KeyByte(ty: Byte, n: nat, k: Bytes, i: nat): Byte
    requires |k| == 64
  {
    if i < 16 then k[i]
    else if ty == 1 && n >= 148 && 132 <= i < 148 then k[i - 116]
    else if ty == 2 && n >= 92 && 76 <= i < 92 then k[i - 60]
    else 0
  }

  /** Behind a header of h bytes: the packet under the mask block, then the start of the ballast block. */
  ghost predicate Carried(ks: Keystream, wg: Bytes, w: Bytes, h: nat, mode: Mode)
    requires |wg| > 0 && h > 0
  {
    var k47, k69 := WordBytes(ks(47, Nonce(wg))), WordBytes(ks(69, Nonce(wg)));
    var pad := |w| - h - |wg|;
    && BallastSize(mode, |wg|, k69[63], pad) && 0 <= pad <= 64
    && (forall i {:trigger wg[i]} :: 0 <= i < |wg| ==> w[h + i] == XorByte(wg[i], KeyByte(wg[0] & 0x1F, |wg|, k47, i)))
    && w[h + |wg|..] == k69[..pad] && BallastField(w[h - 1], pad)
  }

  lemma MaskKey(ty: Byte, n: nat, k: Bytes, i: nat)
    requires |k| == 64 && i < n
    ensures MaskByte(ty, n, k, i) == KeyByte(ty, n, k, i)
  {
  }

  /** A wire image given by its three parts. */
  lemma CarriedParts(ks: Keystream, wg: Bytes, hd: Bytes, mode: Mode)
    requires |wg| > 0 && |hd| > 0
    requires var pad := BallastFor(mode, |wg|, WordBytes(ks(69, Nonce(wg)))[63]); hd[|hd| - 1] == BallastCode(pad)
    ensures var k47, k69 := WordBytes(ks(47, Nonce(wg))), WordBytes(ks(69, Nonce(wg)));
            var pad := BallastFor(mode, |wg|, k69[63]);
            Carried(ks, wg, hd + MaskAs(WgType(wg[0]), wg, k47) + k69[..pad], |hd|, mode)
  {
    hide Nonce, WordBytes, XorByte, BallastFor, BallastSize, BallastField, BallastCode, MaskByte, KeyByte;
    var k47, k69 := WordBytes(ks(47, Nonce(wg))), WordBytes(ks(69, Nonce(wg)));
    var pad, ty := BallastFor(mode, |wg|, k69[63]), WgType(wg[0]);
    var body := MaskAs(ty, wg, k47);
    var w := hd + body + k69[..pad];
    BallastRight(mode, |wg|, k69[63]);
    CodeField(pad);
    assert w[|hd| - 1] == hd[|hd| - 1];
    assert w[|hd| + |wg|..] == k69[..pad];
    forall i | 0 <= i < |wg| ensures w[|hd| + i] == XorByte(wg[i], KeyByte(ty, |wg|, k47, i)) {
      MaskKey(ty, |wg|, k47, i);
      assert w[|hd| + i] == body[i];
    }
  }

  // ---- The three layouts ---------------------------------------------------

  /** Ten bytes: packet number, ports, zero, ballast code. */
  lemma GutLayout(ks: Keystream, fill: Filler, wg: Bytes, isServer: bool, sport: bv16, dport: bv16, mode: Mode)
    requires |wg| >= 16 && mode != Quic
    ensures var w, k47 := Wire(ks, fill, wg, isServer, sport, dport, mode), WordBytes(ks(47, Nonce(wg)));
            && |w| >= 10 + |wg| && w[0..4] == k47[40..44] && PortField(w[4..8], sport, dport, k47[44..48])
            && w[8] == 0 && Carried(ks, wg, w, 10, mode)
  {
    hide Nonce, WordBytes, LeBytes, SealPorts, BallastCode, BallastFor, MaskAs, Carried, PortField, WgType;
    var block, k69 := ks(47, Nonce(wg)), WordBytes(ks(69, Nonce(wg)));
    var pad, ports := BallastFor(mode, |wg|, k69[63]), SealPorts(sport, dport, block[11]);
    var hd := GutHeader(block[10], ports, pad);
    CarriedParts(ks, wg, hd, mode);
    var w := hd + MaskAs(WgType(wg[0]), wg, WordBytes(block)) + k69[..pad];
    assert w[..10] == hd;
    SliceOfPrefix(w, 10, 0, 4);
    SliceOfPrefix(w, 10, 4, 8);
    WordSlice(block, 10);
    WordSlice(block, 11);
    SealedField(sport, dport, block[11]);
    assert hd[0..4] == LeBytes(block[10]) && hd[4..8] == LeBytes(ports);
  }

  /** Sixteen bytes: 0x40, connection id, 1, packet number, ports, zero, ballast code. */
  lemma ShortLayout(ks: Keystream, fill: Filler, wg: Bytes, isServer: bool, sport: bv16, dport: bv16)
    requires |wg| >= 16 && wg[0] & 0x1F != 3 && (wg[0] & 0x1F != 1 || isServer)
    ensures var w, k47 := Wire(ks, fill, wg, isServer, sport, dport, Quic), WordBytes(ks(47, Nonce(wg)));
            && |w| >= 16 + |wg| && w[0] == 0x40 && w[1..5] == k47[36..40] && w[5] == 0x01 && w[6..10] == k47[40..44]
            && PortField(w[10..14], sport, dport, k47[44..48]) && w[14] == 0 && Carried(ks, wg, w, 16, Quic)
  {
    hide Nonce, WordBytes, LeBytes, SealPorts, BallastCode, BallastFor, MaskAs, Carried, PortField, ShortHeader;
    var block, k69 := ks(47, Nonce(wg)), WordBytes(ks(69, Nonce(wg)));
    var pad, ports := BallastFor(Quic, |wg|, k69[63]), SealPorts(sport, dport, block[11]);
    var hd := ShortHeader(block[9], block[10], ports, pad);
    ShortSlices(block[9], block[10], ports, pad);
    CarriedParts(ks, wg, hd, Quic);
    var w := hd + MaskAs(WgType(wg[0]), wg, WordBytes(block)) + k69[..pad];
    assert w[..16] == hd;
    SliceOfPrefix(w, 16, 1, 5);
    SliceOfPrefix(w, 16, 6, 10);
    SliceOfPrefix(w, 16, 10, 14);
    WordSlice(block, 9);
    WordSlice(block, 10);
    WordSlice(block, 11);
    SealedField(sport, dport, block[11]);
  }

  lemma ShortSlices(dcid: bv32, ppn: bv32, ports: bv32, pad: nat)
    requires pad <= 64
    ensures var h := ShortHeader(dcid, ppn, ports, pad);
            && h[0] == 0x40 && h[5] == 0x01 && h[14] == 0 && h[15] == BallastCode(pad)
            && h[1..5] == LeBytes(dcid) && h[6..10] == LeBytes(ppn) && h[10..14] == LeBytes(ports)
  {
    hide LeBytes, BallastCode;
    var h := ShortHeader(dcid, ppn, ports, pad);
    assert h[1..5] == LeBytes(dcid);
    assert h[6..10] == LeBytes(ppn);
    assert h[10..14] == LeBytes(ports);
  }

  /**
   1200 bytes, for a cookie reply or a client's initiation: flags, version 1, connection id, packet number,
   four filler bytes, ports, filler, ballast code.
   */
  lemma LongLayout(ks: Keystream, fill: Filler, wg: Bytes, isServer: bool, sport: bv16, dport: bv16)
    requires |wg| >= 16 && (wg[0] & 0x1F == 3 || (wg[0] & 0x1F == 1 && !isServer))
    ensures var w, k47 := Wire(ks, fill, wg, isServer, sport, dport, Quic), WordBytes(ks(47, Nonce(wg)));
            && |w| >= 1200 + |wg| && w[0] & 0xF0 == (if wg[0] & 0x1F == 3 then 0xF0 else 0xC0)
            && w[1..6] == [0, 0, 0, 1, 8] && w[6..14] == WordBytes(ks(99, 0))[0..8] && w[14] == 8
            && w[15..19] == k47[40..44] && w[19..23] == fill[19..23] && w[23] == 4
            && PortField(w[24..28], sport, dport, k47[44..48]) && w[28..1199] == fill[28..1199]
            && Carried(ks, wg, w, 1200, Quic)
  {
    hide Nonce, WordBytes, LeBytes, SealPorts, BallastCode, BallastFor, MaskAs, Carried, PortField, LongFlags;
    hide LongFront;
    var block, k69, ty := ks(47, Nonce(wg)), WordBytes(ks(69, Nonce(wg))), WgType(wg[0]);
    var pad, ports := BallastFor(Quic, |wg|, k69[63]), SealPorts(sport, dport, block[11]);
    var hd := LongHeader(ty, ks(99, 0), block[10], ports, pad, fill);
    CarriedParts(ks, wg, hd, Quic);
    var w := hd + MaskAs(ty, wg, WordBytes(block)) + k69[..pad];
    var f := LongFront(ty, ks(99, 0), block[10], ports, fill);
    assert w[..28] == f && w[28..1199] == fill[28..1199];
    FlagNibble(ty, fill);
    FrontIs(ty, ks(99, 0), block[10], ports, fill);
    FrontBytes(w, LongFlags(ty, fill), ks(99, 0), block[10], ports, fill[19..23]);
    WordSlice(block, 10);
    WordSlice(block, 11);
    SealedField(sport, dport, block[11]);
  }

  lemma FrontIs(ty: Byte, fixed: Words, ppn: bv32, ports: bv32, fill: Filler)
    ensures LongFront(ty, fixed, ppn, ports, fill) == FrontWith(LongFlags(ty, fill), fixed, ppn, ports, fill[19..23])
  {
  }

  lemma FlagNibble(ty: Byte, fill: Filler)
    ensures LongFlags(ty, fill) & 0xF0 == if ty == 3 then 0xF0 else 0xC0
  {
  }

  lemma FrontBytes(w: Bytes, flags: Byte, fixed: Words, ppn: bv32, ports: bv32, hash: Bytes)
    requires |hash| == 4 && |w| >= 28 && w[..28] == FrontWith(flags, fixed, ppn, ports, hash)
    ensures w[0] == flags && w[1..6] == [0, 0, 0, 1, 8] && w[6..14] == WordBytes(fixed)[0..8] && w[14] == 8
    ensures w[15..19] == LeBytes(ppn) && w[19..23] == hash && w[23] == 4 && w[24..28] == LeBytes(ports)
  {
    hide LeBytes, WordBytes, FrontWith;
    var f := w[..28];
    FrontSlices(flags, fixed, ppn, ports, hash);
    assert w[0] == f[0] && w[14] == f[14] && w[23] == f[23];
    SliceOfPrefix(w, 28, 1, 6);
    SliceOfPrefix(w, 28, 6, 14);
    SliceOfPrefix(w, 28, 15, 19);
    SliceOfPrefix(w, 28, 19, 23);
    SliceOfPrefix(w, 28, 24, 28);
    WordSlice(fixed, 0);
    WordSlice(fixed, 1);
    var b := WordBytes(fixed);
    assert b[0..8] == b[0..4] + b[4..8];
  }

  lemma FrontSlices(flags: Byte, fixed: Words, ppn: bv32, ports: bv32, hash: Bytes)
    requires |hash| == 4
    ensures var f := FrontWith(flags, fixed, ppn, ports, hash);
            && f[0] == flags && f[1..6] == [0, 0, 0, 1, 8] && f[14] == 8 && f[23] == 4
            && f[6..14] == LeBytes(fixed[0]) + LeBytes(fixed[1])
            && f[15..19] == LeBytes(ppn) && f[19..23] == hash && f[24..28] == LeBytes(ports)
  {
    hide LeBytes;
    var f := FrontWith(flags, fixed, ppn, ports, hash);
    var ids, dcid := [flags, 0, 0, 0, 1, 8], LeBytes(fixed[0]) + LeBytes(fixed[1]);
    assert f == ids + dcid + [8] + LeBytes(ppn) + hash + [4] + LeBytes(ports);
    Pieces(ids, dcid, [8], LeBytes(ppn), hash, [4], LeBytes(ports));
    assert ids[1..6] == [0, 0, 0, 1, 8];
  }

  lemma Pieces(x: Bytes, y: Bytes, e: Bytes, p: Bytes, h: Bytes, g: Bytes, q: Bytes)
    requires |x| == 6 && |y| == 8 && |e| == |g| == 1 && |p| == |h| == |q| == 4
    ensures var f := x + y + e + p + h + g + q;
            && f[0] == x[0] && f[1..6] == x[1..6] && f[6..14] == y && f[14] == e[0]
            && f[15..19] == p && f[19..23] == h && f[23] == g[0] && f[24..28] == q
  {
    var f := x + y + e + p + h + g + q;
    assert f[1..6] == x[1..6];
    assert f[6..14] == y;
    assert f[15..19] == p;
    assert f[19..23] == h;
    assert f[24..28] == q;
  }

  // ---- What receivers accept -----------------------------------------------

  /** Byte classes: the two top bits of a first byte. */
  lemma TopBits(b: Byte)
    ensures b & 0x80 == 0x80 <==> b >= 0x80
    ensures b & 0xC0 == 0xC0 <==> b >= 0xC0
    ensures b & 0x80 != 0x80 && b & 0x40 == 0x40 <==> 0x40 <= b < 0x80
    ensures b & 0xC0 != 0xC0 && b & 0x40 == 0x40 <==> 0x40 <= b < 0x80
  {
  }

  /** Decapsulation succeeds on exactly these byte strings. */
  lemma DecapAccepts(ks: Keystream, buf: Bytes, n: nat, mode: Mode)
    requires 0 < n <= |buf|
    ensures mode != Quic ==> (Decap(ks, buf, n, mode).Some? <==> n >= 26 && BallastLen(buf[9]) <= n - 10)
    ensures mode == Quic && buf[0] >= 0x80 ==>
              (Decap(ks, buf, n, mode).Some? <==> n >= 1216 && BallastLen(buf[1199]) <= n - 1200)
    ensures mode == Quic && 0x40 <= buf[0] < 0x80 ==>
              (Decap(ks, buf, n, mode).Some? <==> n >= 32 && BallastLen(buf[15]) <= n - 16)
    ensures mode == Quic && buf[0] < 0x40 ==> Decap(ks, buf, n, mode).None?
  {
    hide BallastLen, Nonce, WordBytes, MaskAs, MaskedType, OpenPorts, LeWord;
    TopBits(buf[0]);
  }

  /** Equal words are equal slices of the block. */
  lemma WordIs(b: Bytes, w: Words, i: nat)
    requires |b| == 4 && i < 16
    ensures LeWord(b) == w[i] <==> b == WordBytes(w)[4 * i..4 * i + 4]
  {
    hide LeWord, LeBytes, WordBytes;
    WordSlice(w, i);
    LeBytesOfWord(b);
    LeWordOfBytes(w[i]);
  }

  /** A datagram verifies exactly when its packet number, and in QUIC its connection id, come from the key stream. */
  lemma VerifyAccepts(ks: Keystream, buf: Bytes, n: nat, mode: Mode)
    requires 0 < n <= |buf|
    ensures mode != Quic ==>
              (Verify(ks, buf, n, mode) <==>
               && n >= 42 && BallastLen(buf[9]) <= n - 42
               && buf[0..4] == WordBytes(ks(47, Nonce(buf[10..n - BallastLen(buf[9])])))[40..44])
    ensures mode == Quic && 0x40 <= buf[0] < 0x80 ==>
              (Verify(ks, buf, n, mode) <==>
               && n >= 48 && BallastLen(buf[15]) <= n - 48 && buf[5] == 0x01
               && buf[1..5] == WordBytes(ks(47, Nonce(buf[16..n - BallastLen(buf[15])])))[36..40]
               && buf[6..10] == WordBytes(ks(47, Nonce(buf[16..n - BallastLen(buf[15])])))[40..44])
    ensures mode == Quic && buf[0] >= 0xC0 ==>
              (Verify(ks, buf, n, mode) <==>
               && n >= 1232 && BallastLen(buf[1199]) <= n - 1232 && buf[5] == 0x08
               && buf[6..10] == WordBytes(ks(99, 0))[0..4]
               && buf[15..19] == WordBytes(ks(47, Nonce(buf[1200..n - BallastLen(buf[1199])])))[40..44])
    ensures mode == Quic && (buf[0] < 0x40 || 0x80 <= buf[0] < 0xC0) ==> !Verify(ks, buf, n, mode)
  {
    hide BallastLen, Nonce, WordBytes, LeWord, VerifyAt;
    TopBits(buf[0]);
    if VerifyClass(mode, buf).Some? {
      VerifiedFields(ks, buf, n, mode, VerifyClass(mode, buf).value);
    } else if n >= 42 {
      OtherClass(buf[0]);
    }
  }

  lemma OtherClass(b: Byte)
    ensures b & 0xC0 != 0xC0 && b & 0x40 != 0x40 <==> b < 0x40 || 0x80 <= b < 0xC0
  {
  }

  lemma VerifiedFields(ks: Keystream, buf: Bytes, n: nat, mode: Mode, h: nat)
    requires n <= |buf| && IsHeader(h) && (mode != Quic <==> h == 10)
    ensures VerifyAt(ks, buf, n, mode, h) <==>
            && n >= h + 32 && BallastLen(buf[h - 1]) <= n - h - 32
            && var k47 := WordBytes(ks(47, Nonce(buf[h..n - BallastLen(buf[h - 1])])));
            (if h == 10 then buf[0..4] == k47[40..44]
             else if h == 16 then buf[1..5] == k47[36..40] && buf[6..10] == k47[40..44]
             else buf[6..10] == WordBytes(ks(99, 0))[0..4] && buf[15..19] == k47[40..44])
  {
    hide BallastLen, Nonce, WordBytes, LeWord;
    if n >= h + 32 && BallastLen(buf[h - 1]) <= n - h - 32 {
      var block, hd := ks(47, Nonce(buf[h..n - BallastLen(buf[h - 1])])), buf[..h];
      if h == 10 {
        SliceOfPrefix(buf, h, 0, 4);
        WordIs(buf[0..4], block, 10);
      } else if h == 16 {
        SliceOfPrefix(buf, h, 1, 5);
        SliceOfPrefix(buf, h, 6, 10);
        WordIs(buf[1..5], block, 9);
        WordIs(buf[6..10], block, 10);
      } else {
        SliceOfPrefix(buf, h, 6, 10);
        SliceOfPrefix(buf, h, 15, 19);
        WordIs(buf[6..10], ks(99, 0), 0);
        WordIs(buf[15..19], block, 10);
      }
    }
  }

  /** The kernel opens a payload exactly under the same fields, with its own first byte and ballast rules. */
  lemma KernelAccepts(ks: Keystream, u: Bytes, quic: bool)
    requires |u| > 0
    ensures !quic ==>
              (KernelOpen(ks, u, quic).Some? <==>
               && |u| >= 42 && BallastLen(u[9]) <= 63 && BallastLen(u[9]) <= |u| - 42
               && u[0..4] == WordBytes(ks(47, Nonce(u[10..])))[40..44])
    ensures quic && u[0] == 0x40 ==>
              (KernelOpen(ks, u, quic).Some? <==>
               && |u| >= 48 && BallastLen(u[15]) <= 63 && BallastLen(u[15]) <= |u| - 48 && u[5] == 0x01
               && u[1..5] == WordBytes(ks(47, Nonce(u[16..])))[36..40]
               && u[6..10] == WordBytes(ks(47, Nonce(u[16..])))[40..44])
    ensures quic && u[0] >= 0x80 ==>
              (KernelOpen(ks, u, quic).Some? <==>
               && |u| >= 1232 && BallastLen(u[1199]) <= 63 && BallastLen(u[1199]) <= |u| - 1232 && u[5] == 0x08
               && u[6..10] == WordBytes(ks(99, 0))[0..4]
               && u[15..19] == WordBytes(ks(47, Nonce(u[1200..])))[40..44])
    ensures quic && u[0] != 0x40 && u[0] < 0x80 ==> KernelOpen(ks, u, quic).None?
  {
    hide BallastLen, Nonce, WordBytes, LeWord, OpenAt;
    TopBits(u[0]);
    if Reaches(u, quic) { OpenedFields(ks, u, OpenClass(quic, u[0]).value); }
  }

  lemma OpenedFields(ks: Keystream, u: Bytes, h: nat)
    requires IsHeader(h) && |u| >= h + 32
    ensures var k47 := WordBytes(ks(47, Nonce(u[h..])));
            OpenAt(ks, u, h).Some? <==>
            && BallastLen(u[h - 1]) <= 63 && BallastLen(u[h - 1]) <= |u| - h - 32
            && (if h == 10 then u[0..4] == k47[40..44]
                else if h == 16 then u[1..5] == k47[36..40] && u[5] == 0x01 && u[6..10] == k47[40..44]
                else u[5] == 0x08 && u[6..10] == WordBytes(ks(99, 0))[0..4] && u[15..19] == k47[40..44])
  {
    hide BallastLen, Nonce, WordBytes, LeWord, OpenPorts, MaskAs, MaskedType;
    var block := ks(47, Nonce(u[h..]));
    if h == 10 {
      WordIs(u[0..4], block, 10);
    } else if h == 16 {
      WordIs(u[1..5], block, 9);
      WordIs(u[6..10], block, 10);
    } else {
      WordIs(u[6..10], ks(99, 0), 0);
      WordIs(u[15..19], block, 10);
    }
  }
}
