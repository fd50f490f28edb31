/** What the XDP ingress program makes of a UDP payload, compared with the userspace wire image. */
module KernelCodec {
  import opened Bytes
  import opened Codec
  import opened CodecLaws

  /** Header class of a payload; the QUIC short header is recognised by its exact first byte. */
  function OpenClass(quic: bool, first: Byte): (h: Option<nat>)
    ensures h.Some? ==> IsHeader(h.value)
  {
    if !quic then Some(GUT_HEADER)
    else if first == 0x40 then Some(SHORT_HEADER)
    else if first & 0x80 == 0x80 then Some(LONG_HEADER)
    else None
  }

  predicate OpenAuthentic(u: Bytes, h: nat, k47: Words, fixed: Words)
    requires |u| >= h && IsHeader(h)
  {
    if h == GUT_HEADER then LeWord(u[0..4]) == k47[10]
    else if h == SHORT_HEADER then LeWord(u[1..5]) == k47[9] && u[5] == 0x01 && LeWord(u[6..10]) == k47[10]
    else u[5] == 0x08 && LeWord(u[6..10]) == fixed[0] && LeWord(u[15..19]) == k47[10]
  }

  /**
   `gut_xdp_core` on a UDP payload: unlike userspace it applies the second mask by
   the length that still includes the ballast, and refuses 64 bytes of ballast.
   */
  function KernelOpen(ks: Keystream, u: Bytes, quic: bool): Option<Packet> {
    if !Reaches(u, quic) then None else OpenAt(ks, u, OpenClass(quic, u[0]).value)
  }

  /** The header class fits the payload, so the packet head is unmasked. */
  predicate Reaches(u: Bytes, quic: bool) {
    |u| >= 32 && OpenClass(quic, u[0]).Some? && |u| >= OpenClass(quic, u[0]).value + 32
  }

  predicate BallastAccepted(n: nat, ballast: nat) { ballast <= 63 && ballast <= n && n - ballast >= 32 }

  function OpenAt(ks: Keystream, u: Bytes, h: nat): Option<Packet>
    requires IsHeader(h) && |u| >= h + 32
  {
    var ballast := BallastLen(u[h - 1]);
    var body := u[h..];
    var k47 := ks(47, Nonce(body));
    var kb := WordBytes(k47);
    if !OpenAuthentic(u, h, k47, ks(99, 0)) || !BallastAccepted(|body|, ballast) then None
    else
      var ports := OpenPorts(LeWord(u[PortsAt(h)..PortsAt(h) + 4]), k47[11]);
      Some(Packet(MaskAs(MaskedType(u[h], kb[0]), body, kb)[..|body| - ballast], ports.0, ports.1))
  }

  /** The second mask lies over the same packet bytes with and without the ballast counted. */
  predicate SameMask(ty: Byte, n: nat, pad: nat, kb: Bytes)
    requires |kb| == 64
  {
    forall i :: 0 <= i < n ==> MaskByte(ty, n + pad, kb, i) == MaskByte(ty, n, kb, i)
  }

  /** WireGuard's sizes: 148 bytes for a handshake initiation, 92 for a response. */
  lemma FixedSizesSameMask(ty: Byte, n: nat, pad: nat, kb: Bytes)
    requires |kb| == 64
    requires ty == 1 ==> n >= 148 || n + pad < 148 || n <= 132
    requires ty == 2 ==> n >= 92 || n + pad < 92 || n <= 76
    ensures SameMask(ty, n, pad, kb)
  {
  }

  /** Outside those sizes the mask falls on packet bytes: it is harmless only where the key bytes are zero. */
  lemma OtherSizesMask(ty: Byte, n: nat, pad: nat, kb: Bytes)
    requires |kb| == 64
    requires (ty == 1 && 132 < n < 148 <= n + pad) || (ty == 2 && 76 < n < 92 <= n + pad)
    ensures var off := if ty == 1 then 132 else 76;
            SameMask(ty, n, pad, kb) <==> forall j :: 16 <= j < 16 + (n - off) ==> kb[j] == 0
  {
    var off := if ty == 1 then 132 else 76;
    assert Mac2Offset(ty, n + pad) == Some(off) && Mac2Offset(ty, n) == None;
    if SameMask(ty, n, pad, kb) {
      forall j | 16 <= j < 16 + (n - off) ensures kb[j] == 0 {
        assert MaskByte(ty, n + pad, kb, off + j - 16) == MaskByte(ty, n, kb, off + j - 16);
      }
    }
  }

  /** Masking the packet together with what follows it. */
  lemma MaskPrefix(ty: Byte, wg: Bytes, tail: Bytes, kb: Bytes)
    requires |kb| == 64
    ensures MaskAs(ty, MaskAs(ty, wg, kb) + tail, kb)[..|wg|] == wg <==> SameMask(ty, |wg|, |tail|, kb)
  {
    hide XorByte, MaskByte;
    var n := |wg|;
    var m := MaskAs(ty, wg, kb) + tail;
    var u := MaskAs(ty, m, kb);
    forall i: nat | i < n ensures u[i] == wg[i] <==> MaskByte(ty, n + |tail|, kb, i) == MaskByte(ty, n, kb, i) {
      assert m[i] == XorByte(wg[i], MaskByte(ty, n, kb, i));
      XorSame(wg[i], MaskByte(ty, n, kb, i), MaskByte(ty, n + |tail|, kb, i));
    }
    if u[..n] == wg {
      forall i | 0 <= i < n ensures MaskByte(ty, n + |tail|, kb, i) == MaskByte(ty, n, kb, i) {
        assert u[..n][i] == u[i];
      }
    }
  }

  lemma XorSame(x: Byte, k: Byte, k': Byte)
    ensures XorByte(XorByte(x, k), k') == x <==> k' == k
  {
    hide XorByte;
    XorCancels(x, k);
    if XorByte(XorByte(x, k), k') == x {
      RightCancel(x, k, k');
    }
  }

  lemma RightCancel(x: Byte, k: Byte, k': Byte)
    requires XorByte(XorByte(x, k), k') == x
    ensures k' == k
  {
    calc {
      k';
      ((x ^ k) ^ k') ^ (x ^ k);
      x ^ (x ^ k);
      k;
    }
  }

  lemma BodyNonce(body: Bytes, tail: Bytes)
    requires |body| >= 32
    ensures Nonce(body + tail) == Nonce(body)
  {
    hide LeWord;
    var b := body + tail;
    assert b[16..20] == body[16..20] && b[20..24] == body[20..24];
    assert b[24..28] == body[24..28] && b[28..32] == body[28..32];
  }

  /** Opening a payload given by its parts. */
  lemma OpenParts(ks: Keystream, hd: Bytes, body: Bytes, tail: Bytes, quic: bool)
    requires IsHeader(|hd|) && |body| >= 32
    requires OpenClass(quic, hd[0]) == Some(|hd|)
    requires BallastLen(hd[|hd| - 1]) == |tail|
    ensures var k47 := ks(47, Nonce(body));
            var kb := WordBytes(k47);
            var ports := OpenPorts(LeWord(hd[PortsAt(|hd|)..PortsAt(|hd|) + 4]), k47[11]);
            KernelOpen(ks, hd + body + tail, quic)
            == if !OpenAuthentic(hd, |hd|, k47, ks(99, 0)) || |tail| > 63 then None
               else Some(Packet(MaskAs(MaskedType(body[0], kb[0]), body + tail, kb)[..|body|], ports.0, ports.1))
  {
    hide LeWord, BallastLen, Nonce, WordBytes, MaskAs, MaskedType, OpenPorts;
    var u := hd + body + tail;
    var h := |hd|;
    assert u[h..] == body + tail;
    assert u[h - 1] == hd[h - 1] && u[0] == hd[0] && u[h] == body[0];
    assert u[..h] == hd;
    SliceOfPrefix(u, h, PortsAt(h), PortsAt(h) + 4);
    SliceOfPrefix(u, h, 0, 4);
    SliceOfPrefix(u, h, 1, 5);
    SliceOfPrefix(u, h, 6, 10);
    if h == LONG_HEADER { SliceOfPrefix(u, h, 15, 19); }
    BodyNonce(body, tail);
  }

  /**
   The kernel opens a userspace wire image to the original packet and ports if
   and only if the ballast is not 64 bytes and the second mask is unaffected by
   the ballast.
   */
  lemma KernelOpensWire(ks: Keystream, fill: Filler, wg: Bytes, isServer: bool, sport: bv16, dport: bv16, mode: Mode)
    requires |wg| >= 32 && (mode == Gut || mode == Quic)
    ensures var kb := WordBytes(ks(47, Nonce(wg)));
            var pad := BallastFor(mode, |wg|, WordBytes(ks(69, Nonce(wg)))[63]);
            KernelOpen(ks, Wire(ks, fill, wg, isServer, sport, dport, mode), mode == Quic)
                == Some(Packet(wg, sport, dport))
            <==> pad != 64 && SameMask(WgType(wg[0]), |wg|, pad, kb)
  {
    hide LeWord, SealPorts, OpenPorts, BallastLen, BallastCode, BallastFor, Nonce, WordBytes, MaskAs, WgType;
    hide MaskedType, XorByte, KernelOpen, Header, SameMask;
    var ty, k47 := WgType(wg[0]), ks(47, Nonce(wg));
    var kb, k69 := WordBytes(k47), WordBytes(ks(69, Nonce(wg)));
    var pad := BallastFor(mode, |wg|, k69[63]);
    var ports := SealPorts(sport, dport, k47[11]);
    var hd := Header(mode, isServer, ty, ks, k47, ports, pad, fill);
    var body := MaskAs(ty, wg, kb);
    HeaderFields(mode, isServer, ty, ks, k47, ports, pad, fill, mode);
    OpenHeader(mode, isServer, ty, ks, k47, ports, pad, fill);
    BallastCodeRoundTrip(pad);
    OpenParts(ks, hd, body, k69[..pad], mode == Quic);
    MaskKeepsNonce(ty, wg, kb);
    assert body[0] == XorByte(wg[0], kb[0]);
    MaskedTypeOf(wg[0], kb[0]);
    OpenSealed(sport, dport, k47[11]);
    MaskPrefix(ty, wg, k69[..pad], kb);
  }

  /** A sent header has the class and authentication fields that the kernel checks. */
  lemma OpenHeader(mode: Mode, isServer: bool, ty: Byte, ks: Keystream, k47: Words, ports: bv32, pad: nat, fill: Filler)
    requires pad <= 64 && (mode == Gut || mode == Quic)
    ensures var hd := Header(mode, isServer, ty, ks, k47, ports, pad, fill);
            OpenClass(mode == Quic, hd[0]) == Some(|hd|) && OpenAuthentic(hd, |hd|, k47, ks(99, 0))
  {
    hide LeWord, LeBytes, BallastCode, GutHeader, ShortHeader, LongHeader;
    GutFields(k47[10], ports, pad);
    ShortFields(k47[9], k47[10], ports, pad);
    LongFields(ty, ks(99, 0), k47[10], ports, pad, fill);
    NotShort(LongHeader(ty, ks(99, 0), k47[10], ports, pad, fill)[0]);
  }

  lemma NotShort(b: Byte)
    requires b & 0x80 == 0x80
    ensures b != 0x40
  {
  }

  /** In GUT mode at most 15 bytes of ballast are sent, so WireGuard's own packets always open. */
  lemma KernelOpensGut(ks: Keystream, fill: Filler, wg: Bytes, isServer: bool, sport: bv16, dport: bv16)
    requires |wg| >= 32
    requires WgType(wg[0]) == 1 ==> |wg| == 148
    requires WgType(wg[0]) == 2 ==> |wg| == 92
    ensures KernelOpen(ks, Wire(ks, fill, wg, isServer, sport, dport, Gut), false) == Some(Packet(wg, sport, dport))
  {
    hide KernelOpen, Wire, Nonce, WordBytes, SameMask, WgType;
    var kb := WordBytes(ks(47, Nonce(wg)));
    var pad := BallastFor(Gut, |wg|, WordBytes(ks(69, Nonce(wg)))[63]);
    KernelOpensWire(ks, fill, wg, isServer, sport, dport, Gut);
    FixedSizesSameMask(WgType(wg[0]), |wg|, pad, kb);
  }

  /** In QUIC mode a packet opens exactly when its ballast is below 64, whatever its header. */
  lemma KernelOpensQuic(ks: Keystream, fill: Filler, wg: Bytes, isServer: bool, sport: bv16, dport: bv16)
    requires |wg| >= 32
    requires WgType(wg[0]) == 1 ==> |wg| == 148
    requires WgType(wg[0]) == 2 ==> |wg| == 92
    ensures KernelOpen(ks, Wire(ks, fill, wg, isServer, sport, dport, Quic), true) == Some(Packet(wg, sport, dport))
            <==> |wg| >= 220 || WordBytes(ks(69, Nonce(wg)))[63] & 0x3F != 0x3F
  {
    hide KernelOpen, Wire, Nonce, WordBytes, SameMask, WgType;
    var kb := WordBytes(ks(47, Nonce(wg)));
    var b := WordBytes(ks(69, Nonce(wg)))[63];
    KernelOpensWire(ks, fill, wg, isServer, sport, dport, Quic);
    FixedSizesSameMask(WgType(wg[0]), |wg|, BallastFor(Quic, |wg|, b), kb);
    FullBallast(b);
  }

  lemma FullBallast(b: Byte)
    ensures (b & 0x3F) as nat + 1 == 64 <==> b & 0x3F == 0x3F
  {
    var c := b & 0x3F;
    assert c < 64;
    assert c as nat == 63 <==> c == 63;
  }
}
