/**
 Laws of the datagram codec: decapsulation inverts encapsulation, verification accepts it and implies
 decapsulation.
 */
module CodecLaws {
  import opened Bytes
  import opened Codec

  // ---- What a receiver reads from each header layout ---------------------

  lemma GutFields(ppn: bv32, ports: bv32, pad: nat)
    requires pad <= 64
    ensures var h := GutHeader(ppn, ports, pad);
            LeWord(h[0..4]) == ppn && LeWord(h[4..8]) == ports && h[9] == BallastCode(pad)
  {
    hide LeWord, LeBytes, BallastCode;
    var h := GutHeader(ppn, ports, pad);
    assert h[0..4] == LeBytes(ppn);
    assert h[4..8] == LeBytes(ports);
    LeWordOfBytes(ppn);
    LeWordOfBytes(ports);
  }

  lemma ShortFields(dcid: bv32, ppn: bv32, ports: bv32, pad: nat)
    requires pad <= 64
    ensures var h := ShortHeader(dcid, ppn, ports, pad);
            && h[0] == 0x40 && h[5] == 0x01 && h[15] == BallastCode(pad)
            && LeWord(h[1..5]) == dcid && LeWord(h[6..10]) == ppn && LeWord(h[10..14]) == ports
  {
    hide LeWord, LeBytes, BallastCode;
    var h := ShortHeader(dcid, ppn, ports, pad);
    assert h[1..5] == LeBytes(dcid);
    assert h[6..10] == LeBytes(ppn);
    assert h[10..14] == LeBytes(ports);
    LeWordOfBytes(dcid);
    LeWordOfBytes(ppn);
    LeWordOfBytes(ports);
  }

  /** Header protection changes only the low nibble of the flags byte. */
  lemma LongFirstByte(ty: Byte, fill: Filler)
    ensures LongFlags(ty, fill) & 0xC0 == 0xC0 && LongFlags(ty, fill) & 0x80 == 0x80
  {
  }

  lemma LongFrontFields(ty: Byte, fixed: Words, ppn: bv32, ports: bv32, fill: Filler)
    ensures var h := LongFront(ty, fixed, ppn, ports, fill);
            && h[0] == LongFlags(ty, fill) && h[5] == 0x08
            && h[6..10] == LeBytes(fixed[0]) && h[15..19] == LeBytes(ppn) && h[24..28] == LeBytes(ports)
  {
    hide LeBytes, LongFlags;
    var h := LongFront(ty, fixed, ppn, ports, fill);
    var ids := [LongFlags(ty, fill), 0x00, 0x00, 0x00, 0x01] + [0x08];
    var mid := ids + LeBytes(fixed[0]) + LeBytes(fixed[1]) + [0x08];
    var end := mid + LeBytes(ppn) + fill[19..23] + [0x04];
    assert h == end + LeBytes(ports);
    assert h == ids + LeBytes(fixed[0])
        + (LeBytes(fixed[1]) + [0x08] + LeBytes(ppn) + fill[19..23] + [0x04] + LeBytes(ports));
    Middle(ids, LeBytes(fixed[0]), LeBytes(fixed[1]) + [0x08] + LeBytes(ppn) + fill[19..23] + [0x04] + LeBytes(ports));
    assert h == mid + LeBytes(ppn) + (fill[19..23] + [0x04] + LeBytes(ports));
    Middle(mid, LeBytes(ppn), fill[19..23] + [0x04] + LeBytes(ports));
    assert h[24..] == LeBytes(ports);
  }

  lemma LongFields(ty: Byte, fixed: Words, ppn: bv32, ports: bv32, pad: nat, fill: Filler)
    requires pad <= 64
    ensures var h := LongHeader(ty, fixed, ppn, ports, pad, fill);
            && h[0] & 0xC0 == 0xC0 && h[0] & 0x80 == 0x80 && h[5] == 0x08 && h[1199] == BallastCode(pad)
            && LeWord(h[6..10]) == fixed[0] && LeWord(h[15..19]) == ppn && LeWord(h[24..28]) == ports
  {
    hide LeWord, LeBytes, BallastCode, LongFlags, LongFront;
    var h := LongHeader(ty, fixed, ppn, ports, pad, fill);
    var f := LongFront(ty, fixed, ppn, ports, fill);
    LongFrontFields(ty, fixed, ppn, ports, fill);
    assert h[..28] == f;
    SliceOfPrefix(h, 28, 6, 10);
    SliceOfPrefix(h, 28, 15, 19);
    SliceOfPrefix(h, 28, 24, 28);
    LongFirstByte(ty, fill);
    LeWordOfBytes(fixed[0]);
    LeWordOfBytes(ppn);
    LeWordOfBytes(ports);
  }

  lemma HeaderFields(mode: Mode, isServer: bool, ty: Byte, ks: Keystream, k47: Words, ports: bv32, pad: nat,
                     fill: Filler, recv: Mode)
    requires pad <= 64
    requires (recv == Quic) == (mode == Quic)
    ensures var hd := Header(mode, isServer, ty, ks, k47, ports, pad, fill);
            && IsHeader(|hd|)
            && DecapClass(recv, hd[0]) == Some(|hd|) && VerifyClass(recv, hd) == Some(|hd|)
            && hd[|hd| - 1] == BallastCode(pad)
            && LeWord(hd[PortsAt(|hd|)..PortsAt(|hd|) + 4]) == ports
            && Authentic(recv, hd, k47, ks(99, 0))
  {
    hide LeWord, LeBytes, BallastCode, GutHeader, ShortHeader, LongHeader;
    GutFields(k47[10], ports, pad);
    ShortFields(k47[9], k47[10], ports, pad);
    LongFields(ty, ks(99, 0), k47[10], ports, pad, fill);
  }

  // ---- Receiving a string given by its parts ------------------------------

  lemma DecapParts(ks: Keystream, hd: Bytes, body: Bytes, tail: Bytes, mode: Mode)
    requires IsHeader(|hd|)
    requires DecapClass(mode, hd[0]) == Some(|hd|)
    requires |body| >= 16
    requires BallastLen(hd[|hd| - 1]) == |tail|
    ensures var k47 := ks(47, Nonce(body));
            var kb := WordBytes(k47);
            var ports := OpenPorts(LeWord(hd[PortsAt(|hd|)..PortsAt(|hd|) + 4]), k47[11]);
            Decap(ks, hd + body + tail, |hd| + |body| + |tail|, mode)
            == Some(Packet(MaskAs(MaskedType(body[0], kb[0]), body, kb), ports.0, ports.1))
  {
    hide LeWord, OpenPorts, BallastLen, Nonce, WordBytes, MaskAs, MaskedType;
    var w := hd + body + tail;
    var h, n := |hd|, |w|;
    assert w[h - 1] == hd[h - 1] && w[0] == hd[0] && w[h] == body[0];
    assert w[h..n - |tail|] == body;
    assert w[PortsAt(h)..PortsAt(h) + 4] == hd[PortsAt(h)..PortsAt(h) + 4];
  }

  lemma VerifyParts(ks: Keystream, hd: Bytes, body: Bytes, tail: Bytes, mode: Mode)
    requires IsHeader(|hd|)
    requires VerifyClass(mode, hd) == Some(|hd|)
    requires BallastLen(hd[|hd| - 1]) == |tail|
    ensures Verify(ks, hd + body + tail, |hd| + |body| + |tail|, mode)
            <==> |body| >= 32 && Authentic(mode, hd, ks(47, Nonce(body)), ks(99, 0))
  {
    hide BallastLen, Nonce, Authentic, VerifyClass;
    var w := hd + body + tail;
    var h, n := |hd|, |w|;
    SameClass(mode, hd, w);
    assert w[h - 1] == hd[h - 1] && w[..h] == hd;
    assert w[h..n - |tail|] == body;
  }

  lemma SameClass(mode: Mode, hd: Bytes, w: Bytes)
    requires IsHeader(|hd|) && |hd| <= |w| && w[..|hd|] == hd
    ensures VerifyClass(mode, w) == VerifyClass(mode, hd)
  {
    assert w[0] == hd[0] && w[5] == hd[5];
  }

  // ---- Main laws ----------------------------------------------------------

  /**
   Decapsulation inverts encapsulation: every generator, filler, mode, role, port pair and packet of
   at least 16 bytes.
   */
  lemma DecapInvertsEncap(ks: Keystream, fill: Filler, wg: Bytes, isServer: bool, sport: bv16, dport: bv16,
                          mode: Mode, recv: Mode)
    requires |wg| >= 16
    requires (recv == Quic) == (mode == Quic)
    ensures var w := Wire(ks, fill, wg, isServer, sport, dport, mode);
            Decap(ks, w, |w|, recv) == Some(Packet(wg, sport, dport))
  {
    hide LeWord, SealPorts, OpenPorts, BallastLen, BallastCode, BallastFor, Nonce, WordBytes, MaskAs, WgType;
    hide MaskedType, XorByte, Decap, Header;
    var ty, k47 := WgType(wg[0]), ks(47, Nonce(wg));
    var kb, k69 := WordBytes(k47), WordBytes(ks(69, Nonce(wg)));
    var pad := BallastFor(mode, |wg|, k69[63]);
    var ports := SealPorts(sport, dport, k47[11]);
    var hd := Header(mode, isServer, ty, ks, k47, ports, pad, fill);
    var body := MaskAs(ty, wg, kb);
    HeaderFields(mode, isServer, ty, ks, k47, ports, pad, fill, recv);
    BallastCodeRoundTrip(pad);
    DecapParts(ks, hd, body, k69[..pad], recv);
    MaskKeepsNonce(ty, wg, kb);
    MaskTwice(ty, wg, kb);
    assert body[0] == XorByte(wg[0], kb[0]);
    MaskedTypeOf(wg[0], kb[0]);
    OpenSealed(sport, dport, k47[11]);
  }

  /** Verification accepts the wire image of a packet exactly when the packet has at least 32 bytes. */
  lemma VerifyAcceptsEncap(ks: Keystream, fill: Filler, wg: Bytes, isServer: bool, sport: bv16, dport: bv16,
                           mode: Mode, recv: Mode)
    requires |wg| >= 16
    requires (recv == Quic) == (mode == Quic)
    ensures var w := Wire(ks, fill, wg, isServer, sport, dport, mode);
            Verify(ks, w, |w|, recv) <==> |wg| >= 32
  {
    hide LeWord, SealPorts, BallastLen, BallastCode, BallastFor, Nonce, WordBytes, MaskAs, WgType, Verify, Header;
    var ty, k47 := WgType(wg[0]), ks(47, Nonce(wg));
    var kb, k69 := WordBytes(k47), WordBytes(ks(69, Nonce(wg)));
    var pad := BallastFor(mode, |wg|, k69[63]);
    var ports := SealPorts(sport, dport, k47[11]);
    HeaderFields(mode, isServer, ty, ks, k47, ports, pad, fill, recv);
    BallastCodeRoundTrip(pad);
    VerifyParts(ks, Header(mode, isServer, ty, ks, k47, ports, pad, fill), MaskAs(ty, wg, kb), k69[..pad], recv);
    MaskKeepsNonce(ty, wg, kb);
  }

  lemma ClassesAgree(b: Byte)
    ensures b & 0xC0 == 0xC0 ==> b & 0x80 == 0x80
    ensures b & 0xC0 != 0xC0 && b & 0x40 == 0x40 ==> b & 0x80 != 0x80
  {
  }

  /** For arbitrary bytes: whatever verifies also decapsulates, with the same header class and at least 32 bytes. */
  lemma VerifiedDecapsulates(ks: Keystream, buf: Bytes, n: nat, mode: Mode)
    requires n <= |buf|
    requires Verify(ks, buf, n, mode)
    ensures VerifyClass(mode, buf) == DecapClass(mode, buf[0])
    ensures Decap(ks, buf, n, mode).Some? && |Decap(ks, buf, n, mode).value.wg| >= 32
  {
    hide LeWord, OpenPorts, BallastLen, Nonce, WordBytes, MaskAs, MaskedType;
    ClassesAgree(buf[0]);
  }

  /** Neither operation looks past the n received bytes of a larger buffer. */
  lemma DecapIsLocal(ks: Keystream, buf: Bytes, n: nat, mode: Mode)
    requires n <= |buf|
    ensures Decap(ks, buf, n, mode) == Decap(ks, buf[..n], n, mode)
  {
    hide DecapClass, DecapAt;
    if n > 0 && DecapClass(mode, buf[0]).Some? {
      DecapAtIsLocal(ks, buf, n, DecapClass(mode, buf[0]).value);
    }
  }

  lemma DecapAtIsLocal(ks: Keystream, buf: Bytes, n: nat, h: nat)
    requires n <= |buf| && IsHeader(h)
    ensures DecapAt(ks, buf, n, h) == DecapAt(ks, buf[..n], n, h)
  {
    hide LeWord, OpenPorts, BallastLen, Nonce, WordBytes, MaskAs, MaskedType, PortsAt, IsHeader;
    if n >= h + 16 {
      var e := n - BallastLen(buf[h - 1]);
      if h <= e { SliceOfPrefix(buf, n, h, e); }
      SliceOfPrefix(buf, n, PortsAt(h), PortsAt(h) + 4);
    }
  }

  lemma VerifyIsLocal(ks: Keystream, buf: Bytes, n: nat, mode: Mode)
    requires n <= |buf|
    ensures Verify(ks, buf, n, mode) == Verify(ks, buf[..n], n, mode)
  {
    hide BallastLen, Nonce, Authentic, VerifyClass, IsHeader;
    if n >= 42 {
      LocalClass(mode, buf, n);
      if VerifyClass(mode, buf).Some? {
        var h := VerifyClass(mode, buf).value;
        if n >= h + 32 {
          var e := n - BallastLen(buf[h - 1]);
          if h <= e { SliceOfPrefix(buf, n, h, e); }
          assert buf[..n][..h] == buf[..h];
        }
      }
    }
  }

  lemma LocalClass(mode: Mode, buf: Bytes, n: nat)
    requires 42 <= n <= |buf|
    ensures VerifyClass(mode, buf[..n]) == VerifyClass(mode, buf)
  {
    assert buf[..n][0] == buf[0] && buf[..n][5] == buf[5];
  }
}
