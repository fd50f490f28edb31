/** The TC egress program on whole frames, together with the program it calls for QUIC long headers. */
module KernelEgress {
  import opened Bytes
  import opened Codec
  import opened Checksum
  import opened Frames
  import opened Hello
  import opened KernelHello

  datatype Verdict = Pass | Shot | Sent

  datatype Offsets = Offsets(ip: nat, udp: nat, v6: bool)

  /** Header parsing: version 6 is only recognised without a VLAN tag. */
  function ParseEgress(d: Bytes): (r: Option<Offsets>)
    ensures r.Some? ==> r.value.udp + 8 <= |d| && |d| >= 74
  {
    if |d| < 74 then None
    else
      var vlan := d[12..14] == [0x81, 0x00];
      var ip := if vlan then 18 else 14;
      var proto := if vlan then d[16..18] else d[12..14];
      if proto == [0x08, 0x00] then
        var udp := ip + 4 * (Val(d[ip]) % 16);
        if d[ip + 9] != 17 || udp + 8 > |d| then None else Some(Offsets(ip, udp, false))
      else if d[12..14] == [0x86, 0xDD] then
        if d[ip + 6] != 17 || ip + 48 > |d| then None else Some(Offsets(ip, ip + 40, true))
      else None
  }

  lemma ShortFrame(d: Bytes)
    requires |d| < 74
    ensures ParseEgress(d) == None
  {
  }

  lemma PlainParses(d: Bytes)
    requires PlainFrame(d) && |d| >= 74
    ensures ParseEgress(d) == Some(Offsets(ETH, UdpOff(d), Version6(d)))
    ensures !Version6(d) ==> Val(d[ETH]) > 0
  {
    hide Be16, Val, FiveWords;
    if !Version6(d) {
      assert d[12..14] == [0x08, 0x00];
      Nibble(d[14]);
    } else {
      assert d[12..14] == [0x86, 0xDD];
      assert d[12..14][0] == 0x86;
    }
  }

  // ---- The payload ---------------------------------------------------------

  /** Payloads the program takes for WireGuard: a known type and two zero bytes. */
  predicate WgLike(wg: Bytes) {
    |wg| >= 32 && WgType(wg[0]) in {1, 2, 3, 4} && wg[1] == 0 && wg[2] == 0
  }

  /** Ballast as the kernel chooses it. */
  function KernelBallast(quic: bool, n: nat, b: Byte): (pad: nat)
    ensures pad <= 64
  {
    if !quic then
      var r := (8 + GUT_HEADER + n) % 16;
      if n < 256 && r != 0 then 16 - r else 0
    else if n < 220 then (b & 0x3F) as nat + 1
    else 0
  }

  function KernelHeaderLen(quic: bool, ty: Byte): nat {
    if !quic then GUT_HEADER else if ty == 1 || ty == 3 then LONG_HEADER else SHORT_HEADER
  }

  /** The header of a packet of type ty; the long one is written by the program called last. */
  function KernelHeader(quic: bool, ty: Byte, fixed: Words, k47: Words, ports: bv32, pad: nat, fill: Filler): (h: Bytes)
    requires pad <= 64
    ensures |h| == KernelHeaderLen(quic, ty)
  {
    if !quic then GutHeader(k47[10], ports, pad)
    else if ty == 1 || ty == 3 then LongHeader(ty, fixed, k47[10], ports, pad, fill)
    else ShortHeader(k47[9], k47[10], ports, pad)
  }

  /** What the program sends as UDP payload for a packet. */
  function KernelWire(ks: Keystream, fill: Filler, quic: bool, wg: Bytes, sport: bv16, dport: bv16): Bytes
    requires |wg| >= 32
  {
    var ty := WgType(wg[0]);
    var k47 := ks(47, Nonce(wg[..32]));
    var block := WordBytes(ks(69, Nonce(wg[..32])));
    var pad := KernelBallast(quic, |wg|, block[63]);
    KernelHeader(quic, ty, ks(99, 0), k47, SealPorts(sport, dport, k47[11]), pad, fill)
    + MaskAs(ty, wg, WordBytes(k47)) + block[..pad]
  }

  lemma HeadNonce(wg: Bytes)
    requires |wg| >= 32
    ensures Nonce(wg[..32]) == Nonce(wg)
  {
    hide LeWord;
    SliceOfPrefix(wg, 32, 16, 20);
    SliceOfPrefix(wg, 32, 20, 24);
    SliceOfPrefix(wg, 32, 24, 28);
    SliceOfPrefix(wg, 32, 28, 32);
  }

  /** Both sides choose the same header length except for a handshake initiation sent by a server. */
  lemma HeaderLengthsAgree(ty: Byte, isServer: bool, quic: bool)
    ensures HeaderLen(if quic then Quic else Gut, ty, isServer) == KernelHeaderLen(quic, ty)
            <==> !(quic && isServer && ty == 1)
  {
  }

  /** The two wire images of a packet, by header: the rest is the same. */
  lemma SameBody(ks: Keystream, kfill: Filler, fill: Filler, wg: Bytes, isServer: bool, sport: bv16, dport: bv16,
                 quic: bool)
    requires |wg| >= 32
    ensures var mode, ty, k47 := if quic then Quic else Gut, WgType(wg[0]), ks(47, Nonce(wg));
            var block := WordBytes(ks(69, Nonce(wg)));
            var pad, ports := KernelBallast(quic, |wg|, block[63]), SealPorts(sport, dport, k47[11]);
            var rest := MaskAs(ty, wg, WordBytes(k47)) + block[..pad];
            && KernelWire(ks, kfill, quic, wg, sport, dport)
                == KernelHeader(quic, ty, ks(99, 0), k47, ports, pad, kfill) + rest
            && Wire(ks, fill, wg, isServer, sport, dport, mode)
                == Header(mode, isServer, ty, ks, k47, ports, pad, fill) + rest
  {
    hide Nonce, WgType, WordBytes, MaskAs, SealPorts, KernelHeader, Header;
    HeadNonce(wg);
    var mode, ty, k47 := if quic then Quic else Gut, WgType(wg[0]), ks(47, Nonce(wg));
    var block := WordBytes(ks(69, Nonce(wg)));
    var pad, ports := KernelBallast(quic, |wg|, block[63]), SealPorts(sport, dport, k47[11]);
    ConcatAssoc(KernelHeader(quic, ty, ks(99, 0), k47, ports, pad, kfill), MaskAs(ty, wg, WordBytes(k47)),
        block[..pad]);
    ConcatAssoc(Header(mode, isServer, ty, ks, k47, ports, pad, fill), MaskAs(ty, wg, WordBytes(k47)), block[..pad]);
  }

  /** With the filler given, the kernel's image is that of a userspace client. */
  lemma WireWithFiller(ks: Keystream, fill: Filler, wg: Bytes, sport: bv16, dport: bv16, quic: bool)
    requires |wg| >= 32
    ensures KernelWire(ks, fill, quic, wg, sport, dport)
            == Wire(ks, fill, wg, false, sport, dport, if quic then Quic else Gut)
  {
    hide Nonce, WgType, WordBytes, MaskAs, SealPorts, GutHeader, ShortHeader, LongHeader, KernelWire, Wire;
    SameBody(ks, fill, fill, wg, false, sport, dport, quic);
  }

  /** The packets that get a long header from the kernel: initiations and cookie replies in QUIC mode. */
  predicate GetsLong(quic: bool, ty: Byte) { quic && (ty == 1 || ty == 3) }

  /**
   The kernel emits exactly the bytes `obfs_encap` does, for every key stream,
   packet, port pair, role and mode, and whatever either side draws for a long
   header, if and only if the kernel gives the packet no long header.
   */
  lemma KernelWireIsWire(ks: Keystream, wg: Bytes, isServer: bool, sport: bv16, dport: bv16, quic: bool, x: Hello,
                         y: Sealed)
    requires |wg| >= 32 && x.Valid() && y.Valid()
    ensures KernelWire(ks, KernelFill(ks, wg, y), quic, wg, sport, dport)
            == Wire(ks, EncapFill(ks, wg, x), wg, isServer, sport, dport, if quic then Quic else Gut)
            <==> !GetsLong(quic, WgType(wg[0]))
  {
    hide Nonce, WgType, WordBytes, MaskAs, SealPorts, GutHeader, ShortHeader, LongHeader, KernelWire, Wire;
    hide KernelFillOf, FillOf, KernelBallast;
    var ty, k47, block := WgType(wg[0]), ks(47, Nonce(wg)), WordBytes(ks(69, Nonce(wg)));
    var pad, ports := KernelBallast(quic, |wg|, block[63]), SealPorts(sport, dport, k47[11]);
    var f, g := KernelFill(ks, wg, y), EncapFill(ks, wg, x);
    SameBody(ks, f, g, wg, isServer, sport, dport, quic);
    if GetsLong(quic, ty) {
      HeaderLengthsAgree(ty, isServer, quic);
      if !(isServer && ty == 1) {
        LengthsDiffer(block, k47[10], x, y);
        LengthByte(ty, ks(99, 0), k47[10], ports, pad, f);
        LengthByte(ty, ks(99, 0), k47[10], ports, pad, g);
        assert KernelWire(ks, f, quic, wg, sport, dport)[29] == f[29];
        assert Wire(ks, g, wg, isServer, sport, dport, Quic)[29] == g[29];
      }
    }
  }

  lemma LengthByte(ty: Byte, fixed: Words, ppn: bv32, ports: bv32, pad: nat, fill: Filler)
    requires pad <= 64
    ensures LongHeader(ty, fixed, ppn, ports, pad, fill)[29] == fill[29]
  {
    hide LongFront, BallastCode;
  }

  /**
   Where both write a long header, the images agree on every bit that a receiver reads, and behind
   the header altogether.
   */
  lemma LongImagesReadAlike(ks: Keystream, kfill: Filler, fill: Filler, wg: Bytes, isServer: bool, sport: bv16,
                            dport: bv16)
    requires |wg| >= 32 && GetsLong(true, WgType(wg[0])) && !(isServer && WgType(wg[0]) == 1)
    ensures var k, w := KernelWire(ks, kfill, true, wg, sport, dport), Wire(ks, fill, wg, isServer, sport, dport, Quic);
            && |k| == |w| >= LONG_HEADER && HighNibble(k[0]) == HighNibble(w[0])
            && k[1..19] == w[1..19] && k[23..28] == w[23..28] && k[LONG_HEADER - 1..] == w[LONG_HEADER - 1..]
  {
    hide Nonce, WgType, WordBytes, MaskAs, SealPorts, GutHeader, ShortHeader, LongHeader, KernelWire, Wire;
    hide KernelBallast, HighNibble;
    var ty, k47, block := WgType(wg[0]), ks(47, Nonce(wg)), WordBytes(ks(69, Nonce(wg)));
    var pad, ports := KernelBallast(true, |wg|, block[63]), SealPorts(sport, dport, k47[11]);
    SameBody(ks, kfill, fill, wg, isServer, sport, dport, true);
    ReadAlike(ty, ks(99, 0), k47[10], ports, pad, kfill, fill);
    var a, b := LongHeader(ty, ks(99, 0), k47[10], ports, pad, kfill),
        LongHeader(ty, ks(99, 0), k47[10], ports, pad, fill);
    SameFront(a, b, MaskAs(ty, wg, WordBytes(k47)) + block[..pad]);
  }

  lemma SameFront(a: Bytes, b: Bytes, rest: Bytes)
    requires |a| == |b| == LONG_HEADER && a[1..19] == b[1..19] && a[23..28] == b[23..28]
    requires a[LONG_HEADER - 1] == b[LONG_HEADER - 1]
    ensures var k, w := a + rest, b + rest;
            && k[0] == a[0] && w[0] == b[0] && k[1..19] == w[1..19] && k[23..28] == w[23..28]
            && k[LONG_HEADER - 1..] == w[LONG_HEADER - 1..]
  {
    var k, w := a + rest, b + rest;
    assert k[1..19] == a[1..19] && w[1..19] == b[1..19] && k[23..28] == a[23..28] && w[23..28] == b[23..28];
    assert k[LONG_HEADER - 1..] == [a[LONG_HEADER - 1]] + rest && w[LONG_HEADER - 1..] == [b[LONG_HEADER - 1]] + rest;
  }

  /**
   An initiation from a server is longer from the kernel by the difference of the headers, and its
   first byte differs.
   */
  lemma ServerInitiationDiffers(ks: Keystream, kfill: Filler, fill: Filler, wg: Bytes, sport: bv16, dport: bv16)
    requires |wg| >= 32 && WgType(wg[0]) == 1
    ensures var k, w := KernelWire(ks, kfill, true, wg, sport, dport), Wire(ks, fill, wg, true, sport, dport, Quic);
            |k| == |w| + LONG_HEADER - SHORT_HEADER && |w| > 0 && k[0] & 0x80 == 0x80 && w[0] == 0x40
  {
    hide Nonce, WordBytes, MaskAs, SealPorts, KernelWire, Wire, KernelBallast, LeBytes;
    SameBody(ks, kfill, fill, wg, true, sport, dport, true);
    LongBit(WgType(wg[0]), kfill);
  }

  lemma LongBit(ty: Byte, fill: Filler)
    ensures LongFlags(ty, fill) & 0x80 == 0x80
  {
  }

  // ---- Steps ---------------------------------------------------------------

  /** Appends the first pad bytes of a block. */
  method AppendBallast(f: Frame, block: Bytes, pad: nat)
    requires |block| == 64 && pad <= 64
    modifies f
    ensures f.data == old(f.data) + block[..pad]
  {
    ghost var d := f.data;
    if pad > 0 {
      f.GrowTail(pad);
      SpliceParts(d, f.data[|d|..], [], block[..pad]);
      assert f.data == d + f.data[|d|..] + [];
      f.StoreBytes(|f.data| - pad, block[..pad]);
      assert f.data == d + block[..pad] + [];
    } else {
      assert block[..pad] == [];
    }
  }

  /** The packet mask, as the two partial masks put together. */
  lemma MaskBySteps(p: Bytes, ty: Byte, kb: Bytes)
    requires |kb| == 64 && 16 <= |p|
    ensures var head := Splice(p, 0, XorSlice(p[..16], kb[..16]));
            match Mac2Offset(ty, |p|)
            case Some(m) => MaskAs(ty, p, kb) == Splice(head, m, XorSlice(head[m..m + 16], kb[16..32]))
            case None => MaskAs(ty, p, kb) == head
  {
    hide XorByte;
    var head := Splice(p, 0, XorSlice(p[..16], kb[..16]));
    assert forall i :: 0 <= i < |p| ==> head[i] == if i < 16 then XorByte(p[i], kb[i]) else p[i];
    var r := match Mac2Offset(ty, |p|)
             case Some(m) => Splice(head, m, XorSlice(head[m..m + 16], kb[16..32]))
             case None => head;
    var q := MaskAs(ty, p, kb);
    forall i | 0 <= i < |p| ensures r[i] == q[i] {
      XorZero(p[i]);
    }
  }

  /** The masks over the packet at off: load, XOR and store, 16 bytes at a time; a failing load skips the second. */
  method MaskBody(f: Frame, off: nat, n: nat, ty: Byte, kb: Bytes)
    requires |kb| == 64 && off + 16 <= |f.data|
    modifies f
    ensures |f.data| == |old(f.data)|
    ensures 16 <= n && off + n <= |f.data| ==>
              f.data == old(f.data)[..off] + MaskAs(ty, old(f.data)[off..off + n], kb) + old(f.data)[off + n..]
  {
    hide Splice, MaskAs, XorSlice;
    ghost var d, m := f.data, if 16 <= n && off + n <= |f.data| then n else 16;
    ghost var a, p, c := d[..off], d[off..off + m], d[off + m..];
    assert d == a + p + c;
    MaskBySteps(p, ty, kb);
    assert f.data[off..off + 16] == p[..16];
    ghost var head := Splice(p, 0, XorSlice(p[..16], kb[..16]));
    SpliceInside(a, p, c, 0, XorSlice(p[..16], kb[..16]));
    f.StoreBytes(off, XorSlice(f.data[off..off + 16], kb[..16]));
    assert f.data == a + head + c;
    if ty == 1 && n >= 148 && off + 148 <= |f.data| {
      MaskMac2(f, off, 132, a, head, c, kb);
    } else if ty == 2 && n >= 92 && off + 92 <= |f.data| {
      MaskMac2(f, off, 76, a, head, c, kb);
    }
  }

  method MaskMac2(f: Frame, off: nat, m: nat, ghost a: Bytes, ghost p: Bytes, ghost c: Bytes, kb: Bytes)
    requires |kb| == 64 && |a| == off && f.data == a + p + c && off + m + 16 <= |f.data|
    modifies f
    ensures |f.data| == |old(f.data)|
    ensures m + 16 <= |p| ==> f.data == a + Splice(p, m, XorSlice(p[m..m + 16], kb[16..32])) + c
  {
    hide Splice, XorSlice;
    if m + 16 <= |p| {
      assert f.data[off + m..off + m + 16] == p[m..m + 16];
      SpliceInside(a, p, c, m, XorSlice(p[m..m + 16], kb[16..32]));
    }
    f.StoreBytes(off + m, XorSlice(f.data[off + m..off + m + 16], kb[16..32]));
  }

  /** Makes room behind the link header, moves the network and UDP headers up, and writes the new header behind them. */
  method InsertHeader(f: Frame, shift: nat, hd: Bytes)
    requires ETH + shift <= |f.data|
    modifies f
    ensures f.data == old(f.data)[..ETH + shift] + hd + old(f.data)[ETH + shift..]
  {
    hide Splice;
    ghost var d := f.data;
    assert d[ETH..] == d[ETH..ETH + shift] + d[ETH + shift..];
    var room := |hd|;
    InsertSteps(d[..ETH], seq(room, _ => 0), d[ETH..ETH + shift], d[ETH + shift..], hd);
    f.AdjustRoom(room);
    var moved := f.data[ETH + room..ETH + room + shift];
    f.StoreBytes(ETH, moved);
    f.StoreBytes(ETH + shift, hd);
    assert d[..ETH + shift] == d[..ETH] + d[ETH..ETH + shift];
  }

  lemma InsertSteps(l: Bytes, z: Bytes, h: Bytes, p: Bytes, hd: Bytes)
    requires |z| == |hd|
    ensures var d := l + z + (h + p);
            && d[|l| + |z|..|l| + |z| + |h|] == h
            && Splice(Splice(d, |l|, h), |l| + |h|, hd) == l + h + hd + p
  {
    hide Splice;
    var d := l + z + (h + p);
    var zh := z + h;
    assert d == (l + z) + h + p;
    Middle(l + z, h, p);
    assert d == l + zh[..|h|] + (zh[|h|..] + p);
    SpliceParts(l, zh[..|h|], zh[|h|..] + p, h);
    assert l + h + (zh[|h|..] + p) == (l + h) + zh[|h|..] + p;
    SpliceParts(l + h, zh[|h|..], p, hd);
  }

  // ---- The program ---------------------------------------------------------

  /** What becomes of the packet in a plain frame. */
  function PlainVerdict(quic: bool, port: bv16, dropKeepalive: bool, wg: Bytes): Verdict {
    if !WgLike(wg) then Pass
    else if WgType(wg[0]) == 4 && |wg| == 32 && dropKeepalive then Shot
    else if port == 0 then Pass
    else Sent
  }

  /** Every WireGuard message is taken up: types 1 to 4 with their reserved bytes zero, and only such types. */
  lemma VerdictOfMessages(quic: bool, port: bv16, drop: bool, wg: Bytes)
    ensures (&& |wg| >= 32 && wg[..4] in [[1, 0, 0, 0], [2, 0, 0, 0], [3, 0, 0, 0], [4, 0, 0, 0]]
             && port != 0 && !(drop && wg[0] == 4 && |wg| == 32)) ==> PlainVerdict(quic, port, drop, wg) == Sent
    ensures |wg| == 32 && wg[..4] == [4, 0, 0, 0] && drop ==> PlainVerdict(quic, port, drop, wg) == Shot
    ensures PlainVerdict(quic, port, drop, wg) != Pass ==>
              |wg| >= 32 && 1 <= wg[0] & 0x1F <= 4 && wg[1] == 0 && wg[2] == 0
  {
    if |wg| >= 32 {
      var h := wg[..4];
      assert h[0] == wg[0] && h[1] == wg[1] && h[2] == wg[2];
      LowTypes(wg[0]);
    }
  }

  lemma LowTypes(b: Byte)
    ensures 1 <= b <= 4 ==> WgType(b) == b
  {
  }

  /** The wire image for the packet in a plain frame. */
  function PlainWire(d: Bytes, ks: Keystream, fill: Filler, quic: bool): Bytes
    requires PlainFrame(d) && |UdpPayload(d)| >= 32
  {
    KernelWire(ks, fill, quic, UdpPayload(d), PortsOf(d).0, PortsOf(d).1)
  }

  /** What a sent frame carries: the wire image, the tunnel ports and addresses, and a correct IP header. */
  ghost predicate SentFrame(d: Bytes, e: Bytes, ks: Keystream, fill: Filler, quic: bool, port: bv16,
                            outer: Outer)
    requires PlainFrame(d) && |UdpPayload(d)| >= 32
  {
    && PlainFrame(e) && Version6(e) == Version6(d) && Readdressed(d, e, outer)
    && UdpPayload(e) == PlainWire(d, ks, fill, quic)
    && PortsOf(e) == (port, port)
    && (!Version6(e) ==> Ones(WordSum(e[ETH..UdpOff(e)])) == 65535)
  }

  /** The WireGuard length, with the 32-bit wrap of a UDP length below eight. */
  function WgLen(d: Bytes, udp: nat): (n: nat)
    requires udp + 8 <= |d|
  {
    (Be16(d[udp + 4..udp + 6]) + 0x1_0000_0000 - 8) % 0x1_0000_0000
  }

  /** The payload is accepted as WireGuard by its length and first bytes. */
  predicate HeadAccepted(d: Bytes, o: Offsets)
    requires o.udp + 8 <= |d|
  {
    var n := WgLen(d, o.udp);
    var off := o.udp + 8;
    && (off + n) % 0x1_0000_0000 <= |d| && n >= 32 && off + 32 <= |d|
    && WgType(d[off]) in {1, 2, 3, 4} && d[off + 1] == 0 && d[off + 2] == 0
  }

  /** On a plain frame that test is WgLike. */
  lemma PlainHead(d: Bytes)
    requires PlainFrame(d) && |d| < 0x1_0000_0000
    ensures WgLen(d, UdpOff(d)) == |UdpPayload(d)|
    ensures HeadAccepted(d, Offsets(ETH, UdpOff(d), Version6(d))) <==> WgLike(UdpPayload(d))
  {
    hide Be16, WgType, FiveWords;
    var off := UdpOff(d) + 8;
    var p := UdpPayload(d);
    if |p| >= 32 {
      assert p[0] == d[off] && p[1] == d[off + 1] && p[2] == d[off + 2];
    }
  }

  /** The wire image, as the program reads its parts from the frame. */
  lemma PlainWireAt(d: Bytes, ks: Keystream, fill: Filler, quic: bool, off: nat)
    requires PlainFrame(d) && |UdpPayload(d)| >= 32 && off == UdpOff(d) + 8
    ensures off + 32 <= |d|
    ensures var ty, nonce := WgType(d[off]), Nonce(d[off..off + 32]);
            var k47, block := ks(47, nonce), WordBytes(ks(69, nonce));
            var pad := KernelBallast(quic, |UdpPayload(d)|, block[63]);
            var ports := SealPorts(PortOf(d[off - 8..off - 6]), PortOf(d[off - 6..off - 4]), k47[11]);
            PlainWire(d, ks, fill, quic)
            == KernelHeader(quic, ty, ks(99, 0), k47, ports, pad, fill) + MaskAs(ty, d[off..], WordBytes(k47))
               + block[..pad]
  {
    hide Nonce, WordBytes, MaskAs, SealPorts, WgType, KernelBallast, KernelHeader, PortOf, PlainFrame;
    FrameSize(d);
    assert d[off..off + 32] == UdpPayload(d)[..32];
  }

  /** Ballast, mask and header: everything up to the readdressing. */
  method FramePayload(f: Frame, o: Offsets, ks: Keystream, fill: Filler, quic: bool) returns (added: nat)
    requires ParseEgress(f.data) == Some(o) && HeadAccepted(f.data, o)
    modifies f
    ensures |f.data| == |old(f.data)| + added
    ensures PlainFrame(old(f.data)) && WgLike(UdpPayload(old(f.data))) && |old(f.data)| < 0x1_0000_0000 ==>
              f.data == old(f.data)[..UdpOff(old(f.data)) + 8] + PlainWire(old(f.data), ks, fill, quic)
  {
    hide Nonce, WordBytes, MaskAs, SealPorts, WgType, KernelBallast, PortOf, ParseEgress, HeadAccepted;
    hide KernelHeader, PlainFrame, WgLen, WgLike, PlainWire, UdpPayload;
    HeadFits(f.data, o);
    ghost var d := f.data;
    var off := o.udp + 8;
    var n := WgLen(f.data, o.udp);
    var ty := WgType(f.data[off]);
    var sport, dport := PortOf(f.data[o.udp..o.udp + 2]), PortOf(f.data[o.udp + 2..o.udp + 4]);
    var nonce := Nonce(f.data[off..off + 32]);
    var block := WordBytes(ks(69, nonce));
    var pad := KernelBallast(quic, n, block[63]);
    AppendBallast(f, block, pad);
    var k47 := ks(47, nonce);
    MaskBody(f, off, n, ty, WordBytes(k47));
    ghost var e := f.data;
    var hd := KernelHeader(quic, ty, ks(99, 0), k47, SealPorts(sport, dport, k47[11]), pad, fill);
    InsertHeader(f, IpLen(o.v6) + 8, hd);
    added := |hd| + pad;
    if PlainFrame(d) && WgLike(UdpPayload(d)) && |d| < 0x1_0000_0000 {
      WgLikeLength(UdpPayload(d));
      FrameSize(d);
      PlainParses(d);
      PlainHead(d);
      PlainWireAt(d, ks, fill, quic, off);
      FramedPlain(d, off, block[..pad], ty, WordBytes(k47), hd, e);
    }
  }

  /** Masks, frames and readdresses an accepted packet. */
  method Send(f: Frame, o: Offsets, ks: Keystream, fill: Filler, quic: bool, port: bv16, outer: Outer)
    requires ParseEgress(f.data) == Some(o) && HeadAccepted(f.data, o) && OuterFits(outer, o.v6)
    modifies f
    ensures PlainFrame(old(f.data)) && WgLike(UdpPayload(old(f.data)))
            && |PlainWire(old(f.data), ks, fill, quic)| + 8 < 65536 ==>
              SentFrame(old(f.data), f.data, ks, fill, quic, port, outer)
  {
    hide WgLike, PlainWire, Ones, WordSum, ParseEgress, HeadAccepted, PlainFrame, WgLen, RewrittenFrame, NewIp;
    hide SentFrame;
    HeadFits(f.data, o);
    ghost var d := f.data;
    var n := WgLen(f.data, o.udp);
    var added := FramePayload(f, o, ks, fill, quic);
    ghost var g := f.data;
    var sum := RewriteHeaders(f, ETH, o.v6, port, port, n + added + 8, outer);
    if PlainFrame(d) && WgLike(UdpPayload(d)) {
      WgLikeLength(UdpPayload(d));
      FrameSize(d);
      PlainParses(d);
      PlainHead(d);
    }
    if PlainFrame(d) && WgLike(UdpPayload(d)) && |PlainWire(d, ks, fill, quic)| + 8 < 65536 {
      assert g[ETH] == d[ETH];
      assert n + added + 8 == |g| - UdpOff(d);
      assert (n + added + 8) % 65536 == n + added + 8;
      SendPlain(d, g, ks, fill, quic, port, outer, sum);
    }
  }

  lemma WgLikeLength(wg: Bytes)
    requires WgLike(wg)
    ensures |wg| >= 32
  {
  }

  /** Ballast, mask and header insertion on a frame that ends with the packet. */
  lemma FramedPlain(d: Bytes, off: nat, tail: Bytes, ty: Byte, kb: Bytes, hd: Bytes, e: Bytes)
    requires off + 16 <= |d| && |kb| == 64
    requires var b, n := d + tail, |d| - off;
             e == b[..off] + MaskAs(ty, b[off..off + n], kb) + b[off + n..]
    ensures e[..off] + hd + e[off..] == d[..off] + (hd + MaskAs(ty, d[off..], kb) + tail)
  {
    hide MaskAs;
    var b := d + tail;
    assert b[off..|d|] == d[off..] && b[..off] == d[..off] && b[|d|..] == tail;
    var m := MaskAs(ty, d[off..], kb);
    assert e == d[..off] + (m + tail);
    assert e[..off] == d[..off] && e[off..] == m + tail;
    ConcatAssoc(hd, m, tail);
    ConcatAssoc(d[..off], hd, m + tail);
  }

  /** Readdressing such a frame gives a sent frame. */
  lemma SendPlain(d: Bytes, g: Bytes, ks: Keystream, fill: Filler, quic: bool, port: bv16, outer: Outer, sum: Bytes)
    requires PlainFrame(d) && |UdpPayload(d)| >= 32 && |PlainWire(d, ks, fill, quic)| + 8 < 65536
    requires OuterFits(outer, Version6(d)) && |sum| == 2
    requires g == d[..UdpOff(d) + 8] + PlainWire(d, ks, fill, quic)
    requires !Version6(d) ==> Ones(WordSum(NewIp(g, ETH, Version6(d), |g| - UdpOff(d), outer, sum))) == 65535
    ensures SentFrame(d, RewrittenFrame(g, ETH, Version6(d), port, port, |g| - UdpOff(d), outer, sum), ks, fill, quic,
                      port, outer)
  {
    hide PlainFrame, PortsOf, UdpPayload, Ones, WordSum, NewIp, RewrittenFrame, PlainWire, Readdressed;
    var off := UdpOff(d) + 8;
    var w := PlainWire(d, ks, fill, quic);
    assert g[..off] == d[..off] && g[off..] == w;
    RewrittenReads(d, g, w, port, port, outer, sum);
  }

  /**
   `gut_egress` and, for QUIC long headers, `gut_egress_quic_long`, in a
   static-peer configuration.  The selected tunnel port, the keepalive draw, the
   long header's filler and the outer addresses are parameters.
   */
  method GutEgress(f: Frame, ks: Keystream, fill: Filler, quic: bool, port: bv16, dropKeepalive: bool, outer4: Outer,
                   outer6: Outer)
    returns (v: Verdict)
    requires |f.data| < 0x1_0000_0000 && OuterFits(outer4, false) && OuterFits(outer6, true)
    modifies f
    ensures v == Pass || v == Shot ==> f.data == old(f.data)
    ensures PlainFrame(old(f.data)) ==>
              var wg := UdpPayload(old(f.data));
              && v == PlainVerdict(quic, port, dropKeepalive, wg)
              && (v == Sent && |PlainWire(old(f.data), ks, fill, quic)| + 8 < 65536
                  ==> SentFrame(old(f.data), f.data, ks, fill, quic, port,
                                if Version6(old(f.data)) then outer6 else outer4))
  {
    hide PlainFrame, ParseEgress, HeadAccepted, WgType, SentFrame, WgLen, PlainWire;
    ghost var d := f.data;
    if PlainFrame(d) {
      PlainHead(d);
      if WgLike(UdpPayload(d)) { assert UdpPayload(d)[0] == d[UdpOff(d) + 8]; }
      if |d| >= 74 {
        PlainParses(d);
      } else {
        ShortFrame(d);
      }
    }
    var parsed := ParseEgress(f.data);
    if parsed.None? {
      return Pass;
    }
    var o := parsed.value;
    if !HeadAccepted(f.data, o) {
      return Pass;
    }
    var off := o.udp + 8;
    HeadFits(f.data, o);
    var ty := WgType(f.data[off]);
    if ty == 4 && WgLen(f.data, o.udp) == 32 && dropKeepalive {
      return Shot;
    }
    if port == 0 {
      return Pass;
    }
    Send(f, o, ks, fill, quic, port, if o.v6 then outer6 else outer4);
    v := Sent;
  }

  lemma HeadFits(d: Bytes, o: Offsets)
    requires ParseEgress(d) == Some(o) && HeadAccepted(d, o)
    ensures o.udp + 40 <= |d| && |d| >= 74
  {
    hide Be16, Val, WgType;
  }
}
