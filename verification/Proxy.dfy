/** The in-place forms of the codec: each rewrites a caller's buffer step by step. */
module Proxy {
  import opened Bytes
  import opened Codec
  import opened Hello

  /** `xor16`. */
  method Xor16(buf: array<Byte>, off: nat, k: Bytes, from: nat)
    requires off + 16 <= buf.Length && from + 16 <= |k|
    modifies buf
    ensures forall i :: 0 <= i < buf.Length ==>
              buf[i] == if off <= i < off + 16 then XorByte(old(buf[i]), k[from + i - off]) else old(buf[i])
  {
    var i := 0;
    while i < 16
      invariant 0 <= i <= 16
      invariant forall j :: 0 <= j < buf.Length ==>
                  buf[j] == if off <= j < off + i then XorByte(old(buf[j]), k[from + j - off]) else old(buf[j])
    {
      buf[off + i] := XorByte(buf[off + i], k[from + i]);
      i := i + 1;
    }
  }

  /** `copy_from_slice`. */
  method Store(buf: array<Byte>, off: nat, s: Bytes)
    requires off + |s| <= buf.Length
    modifies buf
    ensures buf[off..off + |s|] == s
    ensures forall i :: 0 <= i < buf.Length && !(off <= i < off + |s|) ==> buf[i] == old(buf[i])
  {
    forall i | 0 <= i < |s| {
      buf[off + i] := s[i];
    }
  }

  method WriteGutHeader(buf: array<Byte>, ppn: bv32, ports: bv32, pad: nat)
    requires pad <= 64 && GUT_HEADER <= buf.Length
    modifies buf
    ensures buf[..GUT_HEADER] == GutHeader(ppn, ports, pad)
    ensures buf[GUT_HEADER..] == old(buf[GUT_HEADER..])
  {
    hide LeBytes, BallastCode;
    Store(buf, 0, LeBytes(ppn));
    Store(buf, 4, LeBytes(ports));
    buf[8] := 0x00;
    buf[9] := BallastCode(pad);
    assert buf[8..10] == [0x00, BallastCode(pad)];
    Cut(buf[..], 0, 4);
    Cut(buf[..], 4, 8);
    Cut(buf[..], 8, 10);
  }

  method WriteShortHeader(buf: array<Byte>, dcid: bv32, ppn: bv32, ports: bv32, pad: nat)
    requires pad <= 64 && SHORT_HEADER <= buf.Length
    modifies buf
    ensures buf[..SHORT_HEADER] == ShortHeader(dcid, ppn, ports, pad)
    ensures buf[SHORT_HEADER..] == old(buf[SHORT_HEADER..])
  {
    hide LeBytes, BallastCode;
    buf[0] := 0x40;
    Store(buf, 1, LeBytes(dcid));
    buf[5] := 0x01;
    Store(buf, 6, LeBytes(ppn));
    Store(buf, 10, LeBytes(ports));
    buf[14] := 0x00;
    buf[15] := BallastCode(pad);
    assert buf[1..5] == LeBytes(dcid) && buf[6..10] == LeBytes(ppn) && buf[10..14] == LeBytes(ports);
    assert buf[..1] == [0x40] && buf[5..6] == [0x01] && buf[14..16] == [0x00, BallastCode(pad)];
    Cut(buf[..], 1, 5);
    Cut(buf[..], 5, 6);
    Cut(buf[..], 6, 10);
    Cut(buf[..], 10, 14);
    Cut(buf[..], 14, 16);
  }

  /** Flags before protection, version, destination connection id. */
  method WriteLongIds(buf: array<Byte>, ty: Byte, fixed: Words)
    requires LONG_HEADER <= buf.Length
    modifies buf
    ensures buf[..15] == [BaseFlags(ty), 0x00, 0x00, 0x00, 0x01] + [0x08] + LeBytes(fixed[0]) + LeBytes(fixed[1])
            + [0x08]
    ensures forall i :: 15 <= i < buf.Length ==> buf[i] == old(buf[i])
  {
    hide LeBytes, BaseFlags;
    Store(buf, 0, [BaseFlags(ty), 0x00, 0x00, 0x00, 0x01]);
    buf[5] := 0x08;
    Store(buf, 6, LeBytes(fixed[0]));
    Store(buf, 10, LeBytes(fixed[1]));
    buf[14] := 0x08;
    assert buf[..5] == [BaseFlags(ty), 0x00, 0x00, 0x00, 0x01] && buf[5..6] == [0x08] && buf[14..15] == [0x08];
    Cut(buf[..], 5, 6);
    Cut(buf[..], 6, 10);
    Cut(buf[..], 10, 14);
    Cut(buf[..], 14, 15);
  }

  /** Packet number, second connection id and ports behind the ids. */
  method WriteLongFront(buf: array<Byte>, ty: Byte, fixed: Words, ppn: bv32, ports: bv32, scid: bv32)
    requires LONG_HEADER <= buf.Length
    modifies buf
    ensures buf[..28] == FrontWith(BaseFlags(ty), fixed, ppn, ports, LeBytes(scid))
    ensures forall i :: 28 <= i < buf.Length ==> buf[i] == old(buf[i])
  {
    hide LeBytes, BaseFlags;
    WriteLongIds(buf, ty, fixed);
    ghost var ids := buf[..15];
    Store(buf, 15, LeBytes(ppn));
    Store(buf, 19, LeBytes(scid));
    buf[23] := 0x04;
    Store(buf, 24, LeBytes(ports));
    assert buf[..15] == ids;
    assert buf[15..19] == LeBytes(ppn) && buf[19..23] == LeBytes(scid) && buf[23..24] == [0x04];
    Cut(buf[..], 15, 19);
    Cut(buf[..], 19, 23);
    Cut(buf[..], 23, 24);
    Cut(buf[..], 24, 28);
  }

  /** The loop that fills the header with random bytes. */
  method WriteRandom(buf: array<Byte>, block: Bytes, x: Hello)
    requires LONG_HEADER <= buf.Length && |block| == 64 && x.Valid()
    modifies buf
    ensures forall i :: 1 <= i < LONG_HEADER - 1 ==> buf[i] == Random(block, x, i)
    ensures forall i :: LONG_HEADER - 1 <= i < buf.Length ==> buf[i] == old(buf[i])
  {
    hide Random;
    for i := 1 to LONG_HEADER - 1
      invariant forall j :: 1 <= j < i ==> buf[j] == Random(block, x, j)
      invariant forall j :: i <= j < buf.Length ==> buf[j] == old(buf[j])
    {
      buf[i] := Random(block, x, i);
    }
  }

  /** Length field, sealed frame and tag; everything lies below the ballast code. */
  method WriteSealed(buf: array<Byte>, ghost block: Bytes, ghost ppn: bv32, x: Hello)
    requires LONG_HEADER <= buf.Length && |block| == 64 && x.Valid()
    requires forall i :: 28 <= i < LONG_HEADER - 1 ==> buf[i] == Random(block, x, i)
    modifies buf
    ensures forall i :: 28 <= i < LONG_HEADER - 1 && !(30 <= i < HELLO_AT) ==> buf[i] == FillByte(block, ppn, x, i)
    ensures forall i :: 0 <= i < buf.Length && !(28 <= i < LONG_HEADER - 1) ==> buf[i] == old(buf[i])
  {
    hide Random, LengthHigh, LengthLow, FillByte;
    var end := HELLO_AT + |x.frame|;
    SealedFill(block, ppn, x);
    buf[28] := LengthHigh(x);
    buf[29] := LengthLow(x);
    Store(buf, HELLO_AT, x.frame);
    forall i | HELLO_AT <= i < end ensures buf[i] == x.frame[i - HELLO_AT] {
      assert buf[i] == buf[HELLO_AT..end][i - HELLO_AT];
    }
    Store(buf, end, x.tag);
    forall i | end <= i < end + TAG ensures buf[i] == x.tag[i - end] {
      assert buf[i] == buf[end..end + TAG][i - end];
    }
  }

  /** The filler by region. */
  lemma SealedFill(block: Bytes, ppn: bv32, x: Hello)
    requires |block| == 64 && x.Valid()
    ensures FillByte(block, ppn, x, 28) == LengthHigh(x) && FillByte(block, ppn, x, 29) == LengthLow(x)
    ensures forall i :: HELLO_AT <= i < HELLO_AT + |x.frame| ==> FillByte(block, ppn, x, i) == x.frame[i - HELLO_AT]
    ensures var end := HELLO_AT + |x.frame|;
            && (forall i :: end <= i < end + TAG ==> FillByte(block, ppn, x, i) == x.tag[i - end])
            && (forall i :: end + TAG <= i < LONG_HEADER ==> FillByte(block, ppn, x, i) == Random(block, x, i))
  {
    hide Random, BeBytes, LeBytes, XorByte, LengthHigh, LengthLow;
  }

  /** The loop that adds the protection mask to the packet number. */
  method MaskNumber(buf: array<Byte>, mask: Bytes)
    requires LONG_HEADER <= buf.Length && |mask| == 16
    modifies buf
    ensures forall i :: 30 <= i < HELLO_AT ==> buf[i] == XorByte(old(buf[i]), mask[i - 29])
    ensures forall i :: 0 <= i < buf.Length && !(30 <= i < HELLO_AT) ==> buf[i] == old(buf[i])
  {
    hide XorByte;
    for k := 0 to 4
      invariant forall i :: 30 <= i < HELLO_AT ==>
                  buf[i] == if i < 30 + k then XorByte(old(buf[i]), mask[i - 29]) else old(buf[i])
      invariant forall i :: 0 <= i < buf.Length && !(30 <= i < HELLO_AT) ==> buf[i] == old(buf[i])
    {
      buf[30 + k] := XorByte(buf[30 + k], mask[1 + k]);
    }
  }

  /** The packet number in network order under the protection mask. */
  method ProtectNumber(buf: array<Byte>, ppn: bv32, mask: Bytes)
    requires LONG_HEADER <= buf.Length && |mask| == 16
    modifies buf
    ensures forall i :: 30 <= i < HELLO_AT ==> buf[i] == XorByte(BeBytes(ppn)[i - 30], mask[i - 29])
    ensures forall i :: 0 <= i < buf.Length && !(30 <= i < HELLO_AT) ==> buf[i] == old(buf[i])
  {
    hide BeBytes, XorByte;
    Store(buf, 30, BeBytes(ppn));
    forall i | 30 <= i < HELLO_AT ensures buf[i] == BeBytes(ppn)[i - 30] {
      assert buf[i] == buf[30..HELLO_AT][i - 30];
    }
    MaskNumber(buf, mask);
  }

  /** `write_quic_long_header`; the sealed frame, its tag and the protection mask come from the parameters. */
  method WriteLongHeader(buf: array<Byte>, ty: Byte, fixed: Words, ppn: bv32, ports: bv32, pad: nat, block: Bytes,
                         x: Hello)
    requires pad <= 64 && LONG_HEADER <= buf.Length && |block| == 64 && x.Valid()
    modifies buf
    ensures buf[..LONG_HEADER] == LongHeader(ty, fixed, ppn, ports, pad, FillOf(block, ppn, x))
    ensures buf[LONG_HEADER..] == old(buf[LONG_HEADER..])
  {
    hide LeBytes, BallastCode, FillByte, FillOf, BaseFlags, Protected, Random, LongHeader, FrontWith;
    WriteRandom(buf, block, x);
    WriteLongFront(buf, ty, fixed, ppn, ports, x.scid);
    ghost var front := buf[..28];
    WriteSealed(buf, block, ppn, x);
    ProtectNumber(buf, ppn, x.mask);
    NumberFill(block, ppn, x);
    assert buf[..28] == front;
    FirstFlag(BaseFlags(ty), fixed, ppn, ports, LeBytes(x.scid));
    buf[0] := Protected(buf[0], x.mask[0]);
    assert buf[..28] == front[0 := buf[0]];
    buf[LONG_HEADER - 1] := BallastCode(pad);
    AssembledLong(buf[..LONG_HEADER], front, ty, fixed, ppn, ports, pad, block, x);
  }

  lemma HeadUpdate(a: Bytes, b: Bytes, c: Byte)
    requires a != []
    ensures (a + b)[0 := c] == a[0 := c] + b
  {
  }

  lemma FirstFlag(f: Byte, fixed: Words, ppn: bv32, ports: bv32, hash: Bytes)
    requires |hash| == 4
    ensures FrontWith(f, fixed, ppn, ports, hash)[0] == f
  {
    hide LeBytes;
  }

  lemma NewFlags(f: Byte, g: Byte, fixed: Words, ppn: bv32, ports: bv32, hash: Bytes)
    requires |hash| == 4
    ensures FrontWith(f, fixed, ppn, ports, hash)[0 := g] == FrontWith(g, fixed, ppn, ports, hash)
  {
    hide LeBytes;
    var v, w := [f, 0x00, 0x00, 0x00, 0x01], [g, 0x00, 0x00, 0x00, 0x01];
    assert v[0 := g] == w;
    ThroughFront(v, w, LeBytes(fixed[0]), LeBytes(fixed[1]), LeBytes(ppn), hash, LeBytes(ports), g);
  }

  lemma ThroughFront(v: Bytes, w: Bytes, a: Bytes, b: Bytes, c: Bytes, d: Bytes, e: Bytes, g: Byte)
    requires v != [] && v[0 := g] == w
    ensures (v + [0x08] + a + b + [0x08] + c + d + [0x04] + e)[0 := g]
            == w + [0x08] + a + b + [0x08] + c + d + [0x04] + e
  {
    FourBehind(v, [0x08], a, b, [0x08], g);
    FourBehind(v + [0x08] + a + b + [0x08], c, d, [0x04], e, g);
  }

  lemma FourBehind(v: Bytes, a: Bytes, b: Bytes, c: Bytes, d: Bytes, g: Byte)
    requires v != []
    ensures (v + a + b + c + d)[0 := g] == v[0 := g] + a + b + c + d
  {
    HeadUpdate(v, a, g);
    HeadUpdate(v + a, b, g);
    HeadUpdate(v + a + b, c, g);
    HeadUpdate(v + a + b + c, d, g);
  }

  lemma NumberFill(block: Bytes, ppn: bv32, x: Hello)
    requires |block| == 64 && x.Valid()
    ensures forall i :: 30 <= i < HELLO_AT ==>
              FillByte(block, ppn, x, i) == XorByte(BeBytes(ppn)[i - 30], x.mask[i - 29])
  {
    hide Random, BeBytes, XorByte;
  }

  lemma AssembledLong(b: Bytes, front: Bytes, ty: Byte, fixed: Words, ppn: bv32, ports: bv32, pad: nat, block: Bytes,
                      x: Hello)
    requires pad <= 64 && |b| == LONG_HEADER && |block| == 64 && x.Valid()
    requires front == FrontWith(BaseFlags(ty), fixed, ppn, ports, LeBytes(x.scid))
    requires b[..28] == front[0 := Protected(BaseFlags(ty), x.mask[0])]
    requires forall i :: 28 <= i < LONG_HEADER - 1 ==> b[i] == FillByte(block, ppn, x, i)
    requires b[LONG_HEADER - 1] == BallastCode(pad)
    ensures b == LongHeader(ty, fixed, ppn, ports, pad, FillOf(block, ppn, x))
  {
    hide LeBytes, BallastCode, FillOf, BaseFlags, Protected, Random, FrontWith;
    var fill := FillOf(block, ppn, x);
    FillAt(block, ppn, x, 0);
    forall i | 19 <= i < 23 ensures fill[i] == LeBytes(x.scid)[i - 19] {
      FillAt(block, ppn, x, i);
    }
    assert fill[19..23] == LeBytes(x.scid);
    forall i | 28 <= i < LONG_HEADER - 1 ensures b[i] == fill[i] {
      FillAt(block, ppn, x, i);
    }
    AssembledFrom(b, front, ty, fixed, ppn, ports, pad, LeBytes(x.scid), fill);
  }

  /** A header put together from its fields and a filler, with the flags protected last. */
  lemma AssembledFrom(b: Bytes, front: Bytes, ty: Byte, fixed: Words, ppn: bv32, ports: bv32, pad: nat, hash: Bytes,
                      fill: Filler)
    requires pad <= 64 && |b| == LONG_HEADER && |hash| == 4 && fill[19..23] == hash
    requires front == FrontWith(BaseFlags(ty), fixed, ppn, ports, hash)
    requires b[..28] == front[0 := Protected(BaseFlags(ty), fill[0])]
    requires forall i :: 28 <= i < LONG_HEADER - 1 ==> b[i] == fill[i]
    requires b[LONG_HEADER - 1] == BallastCode(pad)
    ensures b == LongHeader(ty, fixed, ppn, ports, pad, fill)
  {
    hide LeBytes, BallastCode, BaseFlags, Protected, FrontWith;
    NewFlags(BaseFlags(ty), LongFlags(ty, fill), fixed, ppn, ports, hash);
    assert b[28..1199] == fill[28..1199];
    assert b[1199..LONG_HEADER] == [BallastCode(pad)];
    assert b == b[..28] + b[28..1199] + b[1199..LONG_HEADER];
  }

  /** Masks the packet at buf[off..off + n] as `obfs_encap` and `obfs_decap` do. */
  method MaskInPlace(buf: array<Byte>, off: nat, n: nat, ty: Byte, kb: Bytes)
    requires 16 <= n && off + n <= buf.Length && |kb| == 64
    modifies buf
    ensures buf[off..off + n] == MaskAs(ty, old(buf[off..off + n]), kb)
    ensures forall i :: 0 <= i < buf.Length && !(off <= i < off + n) ==> buf[i] == old(buf[i])
  {
    hide XorByte;
    Xor16(buf, off, kb, 0);
    if ty == 1 && n >= 148 {
      Xor16(buf, off + 132, kb, 16);
    } else if ty == 2 && n >= 92 {
      Xor16(buf, off + 76, kb, 16);
    }
    ghost var m := MaskAs(ty, old(buf[off..off + n]), kb);
    forall i | 0 <= i < n ensures buf[off + i] == m[i] {
      XorZero(old(buf[off + i]));
    }
  }

  /** Writes pad bytes of the 64-byte block, cyclically, at buf[off..]. */
  method WriteBallast(buf: array<Byte>, off: nat, block: Bytes, pad: nat)
    requires |block| == 64 && pad <= 64 && off + pad <= buf.Length
    modifies buf
    ensures buf[off..off + pad] == block[..pad]
    ensures forall i :: 0 <= i < buf.Length && !(off <= i < off + pad) ==> buf[i] == old(buf[i])
  {
    var i := 0;
    while i < pad
      invariant 0 <= i <= pad
      invariant forall j :: 0 <= j < i ==> buf[off + j] == block[j]
      invariant forall j :: 0 <= j < buf.Length && !(off <= j < off + i) ==> buf[j] == old(buf[j])
    {
      buf[off + i] := block[i % 64];
      i := i + 1;
    }
  }

  /** Writes the header of the class that `HeaderLen` selects. */
  method WriteHeader(buf: array<Byte>, mode: Mode, isServer: bool, ty: Byte, ks: Keystream, k47: Words, ports: bv32,
                     pad: nat,
                     block: Bytes, x: Hello)
    requires pad <= 64 && HeaderLen(mode, ty, isServer) <= buf.Length && |block| == 64 && x.Valid()
    modifies buf
    ensures var h := HeaderLen(mode, ty, isServer);
            && buf[..h] == Header(mode, isServer, ty, ks, k47, ports, pad, FillOf(block, k47[10], x))
            && buf[h..] == old(buf[h..])
  {
    hide GutHeader, ShortHeader, LongHeader, FillOf;
    var h := HeaderLen(mode, ty, isServer);
    if h == GUT_HEADER {
      WriteGutHeader(buf, k47[10], ports, pad);
    } else if h == SHORT_HEADER {
      WriteShortHeader(buf, k47[9], k47[10], ports, pad);
    } else {
      WriteLongHeader(buf, ty, ks(99, 0), k47[10], ports, pad, block, x);
    }
  }

  /** Moves the packet behind the header, masks it there and appends the ballast. */
  method PlaceBody(buf: array<Byte>, n: nat, h: nat, ty: Byte, kb: Bytes, block: Bytes, pad: nat)
    requires 16 <= n && 0 < h && pad <= 64 && h + n + pad <= buf.Length
    requires |kb| == 64 && |block| == 64
    modifies buf
    ensures buf[h..h + n] == MaskAs(ty, old(buf[..n]), kb)
    ensures buf[h + n..h + n + pad] == block[..pad]
    ensures buf[h + n + pad..] == old(buf[h + n + pad..])
  {
    hide MaskAs, BallastCode;
    ghost var wg := buf[..n];
    forall i | 0 <= i < n {
      buf[h + i] := buf[i];
    }
    assert buf[h..h + n] == wg;
    MaskInPlace(buf, h, n, ty, kb);
    ghost var body := buf[h..h + n];
    WriteBallast(buf, h + n, block, pad);
    buf[h - 1] := BallastCode(pad);
    assert buf[h..h + n] == body;
  }

  /** A buffer whose header was rewritten still holds the body and ballast, and reads as the three parts. */
  lemma WireParts(b: Bytes, b': Bytes, h: nat, n: nat, pad: nat)
    requires |b| == |b'| && h + n + pad <= |b| && b'[h..] == b[h..]
    ensures b'[..h + n + pad] == b'[..h] + b[h..h + n] + b[h + n..h + n + pad]
    ensures b'[h + n + pad..] == b[h + n + pad..]
  {
    SliceOfSuffix(b', b, h, h, h + n);
    SliceOfSuffix(b', b, h, h + n, h + n + pad);
    SliceOfSuffix(b', b, h, h + n + pad, |b|);
    assert b'[..h + n + pad] == b'[..h] + b'[h..h + n] + b'[h + n..h + n + pad];
  }

  /**
   `obfs_encap`.  A buffer too short for the wire image makes the source index
   out of range, so it is required to be long enough.
   */
  method ObfsEncap(buf: array<Byte>, n: nat, ks: Keystream, x: Hello, isServer: bool, sport: bv16, dport: bv16,
                   mode: Mode)
    returns (r: Option<(nat, bv32)>)
    requires n <= buf.Length && x.Valid()
    requires n >= 16 ==> |Wire(ks, EncapFill(ks, buf[..n], x), buf[..n], isServer, sport, dport, mode)| <= buf.Length
    modifies buf
    ensures n < 16 ==> r == None && buf[..] == old(buf[..])
    ensures n >= 16 ==>
              var w := Wire(ks, EncapFill(ks, old(buf[..n]), x), old(buf[..n]), isServer, sport, dport, mode);
              && r == Some((|w|, ks(47, Nonce(old(buf[..n])))[9]))
              && buf[..|w|] == w && buf[|w|..] == old(buf[|w|..])
  {
    hide Nonce, WordBytes, BallastFor, MaskAs, SealPorts, Header, WgType, FillOf;
    if n < 16 {
      return None;
    }
    ghost var wg := buf[..n];
    var ty := WgType(buf[0]);
    var h := HeaderLen(mode, ty, isServer);
    var k47 := ks(47, Nonce(buf[..n]));
    var block := WordBytes(ks(69, Nonce(buf[..n])));
    var pad := BallastFor(mode, n, block[63]);
    PlaceBody(buf, n, h, ty, WordBytes(k47), block, pad);
    ghost var b := buf[..];
    WriteHeader(buf, mode, isServer, ty, ks, k47, SealPorts(sport, dport, k47[11]), pad, block, x);
    WireParts(b, buf[..], h, n, pad);
    r := Some((h + n + pad, k47[9]));
  }

  /** `obfs_decap`: on success the packet is left at the front of the buffer. */
  method ObfsDecap(buf: array<Byte>, n: nat, ks: Keystream, mode: Mode) returns (r: Option<(nat, bv16, bv16)>)
    requires n <= buf.Length
    modifies buf
    ensures match Decap(ks, old(buf[..]), n, mode)
            case None => r == None && buf[..] == old(buf[..])
            case Some(p) => r == Some((|p.wg|, p.sport, p.dport)) && |p.wg| <= buf.Length && buf[..|p.wg|] == p.wg
  {
    hide DecapClass, DecapAt;
    if n == 0 || DecapClass(mode, buf[0]).None? {
      return None;
    }
    r := DecapBehind(buf, n, ks, DecapClass(mode, buf[0]).value);
  }

  method DecapBehind(buf: array<Byte>, n: nat, ks: Keystream, h: nat) returns (r: Option<(nat, bv16, bv16)>)
    requires n <= buf.Length && IsHeader(h)
    modifies buf
    ensures match DecapAt(ks, old(buf[..]), n, h)
            case None => r == None && buf[..] == old(buf[..])
            case Some(p) => r == Some((|p.wg|, p.sport, p.dport)) && |p.wg| <= buf.Length && buf[..|p.wg|] == p.wg
  {
    hide Nonce, WordBytes, BallastLen, OpenPorts, MaskedType, MaskAs, LeWord, PortsAt, IsHeader;
    if n < h + 16 {
      return None;
    }
    var ballast := BallastLen(buf[h - 1]);
    if ballast > n - h {
      return None;
    }
    var m := n - h - ballast;
    var k47 := ks(47, Nonce(buf[..][h..h + m]));
    var kb := WordBytes(k47);
    var ports := OpenPorts(LeWord(buf[..][PortsAt(h)..PortsAt(h) + 4]), k47[11]);
    UnmaskToFront(buf, h, m, kb);
    r := Some((m, ports.0, ports.1));
  }

  /** Unmasks the packet behind a header of h bytes and moves it to the front. */
  method UnmaskToFront(buf: array<Byte>, h: nat, m: nat, kb: Bytes)
    requires |kb| == 64 && h + 16 <= buf.Length && h + m <= buf.Length
    modifies buf
    ensures buf[..m] == MaskAs(MaskedType(old(buf[..])[h], kb[0]), old(buf[..])[h..h + m], kb)
  {
    hide MaskAs, MaskedType;
    ghost var b := buf[..];
    assert buf[h..h + m] == b[h..h + m];
    var ty := UnmaskInPlace(buf, h, m, kb);
    ghost var u := buf[h..h + m];
    forall i | 0 <= i < m {
      buf[i] := buf[h + i];
    }
    assert buf[..m] == u;
  }

  /** The unmasking steps of `obfs_decap`: always 16 bytes first, then mac2 by the type just revealed. */
  method UnmaskInPlace(buf: array<Byte>, h: nat, m: nat, kb: Bytes) returns (ty: Byte)
    requires |kb| == 64 && h + 16 <= buf.Length && h + m <= buf.Length
    modifies buf
    ensures ty == MaskedType(old(buf[h]), kb[0])
    ensures buf[h..h + m] == MaskAs(ty, old(buf[h..h + m]), kb)
  {
    hide XorByte, WgType;
    Xor16(buf, h, kb, 0);
    ty := WgType(buf[h]);
    if ty == 1 && m >= 148 {
      Xor16(buf, h + 132, kb, 16);
    } else if ty == 2 && m >= 92 {
      Xor16(buf, h + 76, kb, 16);
    }
    ghost var u := MaskAs(ty, old(buf[h..h + m]), kb);
    forall i | 0 <= i < m ensures buf[h + i] == u[i] {
      XorZero(old(buf[h + i]));
    }
  }
}
