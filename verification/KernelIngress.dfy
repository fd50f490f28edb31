/** The XDP ingress program on whole frames. */
module KernelIngress {
  import opened Bytes
  import opened Codec
  import opened Checksum
  import opened Frames
  import opened KernelCodec
  import opened KernelEgress

  /** Header parsing: a VLAN tag moves both versions, IP options are refused. */
  function ParseIngress(d: Bytes): (r: Option<Offsets>)
    ensures r.Some? ==> ETH <= r.value.ip && r.value.udp == r.value.ip + IpLen(r.value.v6) && r.value.udp + 8 <= |d|
  {
    if |d| < 14 then None
    else
      var vlan := d[12..14] == [0x81, 0x00];
      if vlan && |d| < 18 then None
      else
        var ip := if vlan then 18 else 14;
        var proto := if vlan then d[16..18] else d[12..14];
        if proto == [0x08, 0x00] then
          if ip + 20 > |d| || d[ip + 9] != 17 || Val(d[ip]) % 16 != 5 || ip + 28 > |d| then None
          else Some(Offsets(ip, ip + 20, false))
        else if proto == [0x86, 0xDD] then
          if ip + 40 > |d| || d[ip + 6] != 17 || ip + 48 > |d| then None
          else Some(Offsets(ip, ip + 40, true))
        else None
  }

  lemma PlainParsesIn(d: Bytes)
    requires PlainFrame(d)
    ensures ParseIngress(d) == Some(Offsets(ETH, UdpOff(d), Version6(d)))
    ensures !Version6(d) ==> Val(d[ETH]) > 0
  {
    hide Be16, Val, FiveWords;
    if !Version6(d) {
      assert d[12..14] == [0x08, 0x00];
      Nibble(d[14]);
    } else {
      assert d[12..14][0] == 0x86;
    }
  }

  // ---- The payload ---------------------------------------------------------

  /** The payload in the buffer after the program has unmasked and checked it: a refused one stays changed. */
  function LeftAt(ks: Keystream, u: Bytes, h: nat): (r: Bytes)
    requires IsHeader(h) && |u| >= h + 32
    ensures |r| == |u|
  {
    var k47 := ks(47, Nonce(u[h..]));
    var kb := WordBytes(k47);
    if OpenAuthentic(u, h, k47, ks(99, 0)) then u[..h] + MaskAs(MaskedType(u[h], kb[0]), u[h..], kb)
    else u[..h] + HeadUnmasked(u[h..], kb)
  }

  function LeftBehind(ks: Keystream, u: Bytes, quic: bool): (r: Bytes)
    ensures |r| == |u|
  {
    if Reaches(u, quic) then LeftAt(ks, u, OpenClass(quic, u[0]).value) else u
  }

  function HeadUnmasked(p: Bytes, kb: Bytes): (r: Bytes)
    requires |p| >= 16 && |kb| == 64
    ensures |r| == |p|
  {
    Splice(p, 0, XorSlice(p[..16], kb[..16]))
  }

  /** What the program returns for a payload that reaches the unmasking: ballast and ports, or nothing. */
  function Fields(ks: Keystream, u: Bytes, h: nat): Option<(nat, bv16, bv16)>
    requires IsHeader(h) && |u| >= h + 32
  {
    var k47 := ks(47, Nonce(u[h..]));
    var ports := OpenPorts(LeWord(u[PortsAt(h)..PortsAt(h) + 4]), k47[11]);
    if OpenAuthentic(u, h, k47, ks(99, 0)) then Some((BallastLen(u[h - 1]), ports.0, ports.1)) else None
  }

  /** KernelOpen in the order the program computes it. */
  lemma OpenInOrder(ks: Keystream, u: Bytes, h: nat)
    requires IsHeader(h) && |u| >= h + 32
    ensures OpenAt(ks, u, h)
            == match Fields(ks, u, h)
               case None => None
               case Some(r) =>
                 if BallastAccepted(|u| - h, r.0) then Some(Packet(LeftAt(ks, u, h)[h..|u| - r.0], r.1, r.2)) else None
  {
    hide LeWord, OpenPorts, BallastLen, Nonce, WordBytes, MaskAs, MaskedType, OpenAuthentic, HeadUnmasked, PortsAt;
    hide IsHeader;
    var kb := WordBytes(ks(47, Nonce(u[h..])));
    var m := MaskAs(MaskedType(u[h], kb[0]), u[h..], kb);
    var ballast := BallastLen(u[h - 1]);
    if BallastAccepted(|u| - h, ballast) {
      assert (u[..h] + m)[h..|u| - ballast] == m[..|m| - ballast];
    }
  }

  /** The nonce is read from the 32 bytes behind the header. */
  lemma NonceInFrame(d: Bytes, off: nat)
    requires off + 32 <= |d|
    ensures Nonce(d[off..off + 32]) == Nonce(d[off..])
  {
    hide Nonce;
    HeadNonce(d[off..]);
    assert d[off..][..32] == d[off..off + 32];
  }

  /** Unmasks the first 16 bytes of the packet at wg. */
  method UnmaskHead(f: Frame, wg: nat, kb: Bytes)
    requires |kb| == 64 && wg + 16 <= |f.data|
    modifies f
    ensures f.data == old(f.data)[..wg] + HeadUnmasked(old(f.data)[wg..], kb)
    ensures f.data[wg] == XorByte(old(f.data)[wg], kb[0])
  {
    hide XorSlice, Splice, XorByte;
    ghost var d := f.data;
    ghost var p := d[wg..];
    assert d == d[..wg] + p + [];
    SpliceInside(d[..wg], p, [], 0, XorSlice(p[..16], kb[..16]));
    assert f.data[wg..wg + 16] == p[..16];
    f.StoreBytes(wg, XorSlice(f.data[wg..wg + 16], kb[..16]));
    HeadByte(p, kb);
    assert f.data == d[..wg] + HeadUnmasked(p, kb) + [];
  }

  /** Unmasks the second region by type and length, on a frame whose head is unmasked already. */
  method UnmaskMac2(f: Frame, wg: nat, n: nat, ty: Byte, kb: Bytes, ghost a: Bytes, ghost p: Bytes)
    requires |kb| == 64 && |a| == wg && |p| >= 16 && f.data == a + HeadUnmasked(p, kb)
    modifies f
    ensures |f.data| == |old(f.data)|
    ensures n == |p| ==> f.data == a + MaskAs(ty, p, kb)
  {
    hide XorSlice, MaskAs, Splice;
    ghost var head := HeadUnmasked(p, kb);
    MaskBySteps(p, ty, kb);
    assert f.data == a + head + [];
    if ty == 1 && n >= 148 && wg + 148 <= |f.data| {
      MaskMac2(f, wg, 132, a, head, [], kb);
    } else if ty == 2 && n >= 92 && wg + 92 <= |f.data| {
      MaskMac2(f, wg, 76, a, head, [], kb);
    }
    if n == |p| {
      assert f.data == a + MaskAs(ty, p, kb) + [];
    }
  }

  /** Unmasks the packet behind a header of h bytes and, once authenticated, its second region. */
  method Unmask(f: Frame, off: nat, h: nat, n: nat, ks: Keystream) returns (r: Option<(nat, bv16, bv16)>)
    requires IsHeader(h) && off + h + 32 <= |f.data|
    modifies f
    ensures |f.data| == |old(f.data)|
    ensures off + h + n == |f.data| ==>
              f.data == old(f.data)[..off] + LeftAt(ks, old(f.data)[off..], h) && r == Fields(ks, old(f.data)[off..], h)
  {
    hide LeWord, OpenPorts, BallastLen, Nonce, WordBytes, MaskAs, OpenAuthentic, XorByte, WgType, HeadUnmasked;
    ghost var d := f.data;
    ghost var u := d[off..];
    var wg := off + h;
    ghost var p := u[h..];
    assert p == d[wg..] && d[..wg] == d[..off] + u[..h];
    var ballast := BallastLen(f.data[wg - 1]);
    NonceInFrame(d, wg);
    var k47 := ks(47, Nonce(f.data[wg..wg + 32]));
    var kb := WordBytes(k47);
    UnmaskHead(f, wg, kb);
    var ty := WgType(f.data[wg]);
    var front := f.data[off..wg];
    assert front == u[..h];
    FrontAuthentic(u, h, k47, ks(99, 0));
    if !OpenAuthentic(front, h, k47, ks(99, 0)) {
      ConcatAssoc(d[..off], u[..h], HeadUnmasked(p, kb));
      return None;
    }
    SliceOfPrefix(u, h, PortsAt(h), PortsAt(h) + 4);
    var ports := OpenPorts(LeWord(front[PortsAt(h)..PortsAt(h) + 4]), k47[11]);
    UnmaskMac2(f, wg, n, ty, kb, d[..wg], p);
    ConcatAssoc(d[..off], u[..h], MaskAs(ty, p, kb));
    r := Some((ballast, ports.0, ports.1));
  }

  /** The first byte after the XOR is the unmasked type byte. */
  lemma HeadByte(p: Bytes, kb: Bytes)
    requires |p| >= 16 && |kb| == 64
    ensures Splice(p, 0, XorSlice(p[..16], kb[..16]))[0] == XorByte(p[0], kb[0])
  {
    hide XorByte;
  }

  lemma FrontAuthentic(u: Bytes, h: nat, k47: Words, fixed: Words)
    requires |u| >= h && IsHeader(h)
    ensures OpenAuthentic(u[..h], h, k47, fixed) == OpenAuthentic(u, h, k47, fixed)
  {
    hide LeWord;
    SliceOfPrefix(u, h, 0, 4);
    SliceOfPrefix(u, h, 1, 5);
    SliceOfPrefix(u, h, 6, 10);
    if h == LONG_HEADER {
      SliceOfPrefix(u, h, 15, 19);
    }
  }

  // ---- The program ---------------------------------------------------------

  /** Removes the header behind the first `off` bytes and the ballast at the end. */
  method Strip(f: Frame, off: nat, h: nat, ballast: nat)
    requires off + h <= |f.data| && h + ballast <= |f.data|
    modifies f
    ensures off + h + ballast <= |old(f.data)| ==>
              f.data == old(f.data)[..off] + old(f.data)[off + h..|old(f.data)| - ballast]
  {
    hide Splice;
    ghost var d := f.data;
    var saved := f.data[..off];
    f.DropHead(h);
    assert f.data == [] + d[h..h + off] + d[off + h..];
    SpliceParts([], d[h..h + off], d[off + h..], saved);
    f.StoreBytes(0, saved);
    assert f.data == d[..off] + d[off + h..];
    if ballast > 0 {
      f.DropTail(ballast);
    }
    if off + h + ballast <= |d| {
      assert d[off + h..][..|d| - ballast - off - h] == d[off + h..|d| - ballast];
    }
  }

  /** What a delivered frame carries. */
  ghost predicate OpenedFrame(d: Bytes, e: Bytes, p: Packet, outer: Outer)
    requires PlainFrame(d)
  {
    && PlainFrame(e) && Version6(e) == Version6(d) && Readdressed(d, e, outer)
    && UdpPayload(e) == p.wg && PortsOf(e) == (p.sport, p.dport)
    && (!Version6(e) ==> Ones(WordSum(e[ETH..UdpOff(e)])) == 65535)
  }

  /** The addresses of a delivered frame: the tunnel's when configured, otherwise its own; no UDP checksum. */
  function DeliveredOuter(d: Bytes, tun: Option<(Bytes, Bytes)>, macs: Bytes): Outer
    requires PlainFrame(d)
  {
    if tun.Some? then Outer(tun.value.0, tun.value.1, [0, 0], macs)
    else if Version6(d) then Outer(d[22..38], d[38..54], [0, 0], macs)
    else Outer(d[26..30], d[30..34], [0, 0], macs)
  }

  /** Addresses written into a delivered packet: the tunnel's when configured, otherwise the packet's own. */
  function TunnelAddresses(d: Bytes, o: Offsets, tun: Option<(Bytes, Bytes)>): (a: (Bytes, Bytes))
    requires o.udp == o.ip + IpLen(o.v6) && o.udp <= |d|
    requires tun.Some? ==> |tun.value.0| == |tun.value.1| == if o.v6 then 16 else 4
    ensures |a.0| == |a.1| == if o.v6 then 16 else 4
  {
    if tun.Some? then tun.value
    else if o.v6 then (d[o.ip + 8..o.ip + 24], d[o.ip + 24..o.ip + 40])
    else (d[o.ip + 12..o.ip + 16], d[o.ip + 16..o.ip + 20])
  }

  /** Readdresses a stripped frame; the link type is set from the IP version. */
  method Deliver(f: Frame, o: Offsets, sport: bv16, dport: bv16, newLen: nat, tun: Option<(Bytes, Bytes)>,
                 macs: Bytes, ghost d: Bytes)
    requires ETH <= o.ip && o.udp == o.ip + IpLen(o.v6) && o.udp + 8 <= |f.data| && newLen < 65536 && |macs| == 12
    requires tun.Some? ==> |tun.value.0| == |tun.value.1| == if o.v6 then 16 else 4
    modifies f
    ensures PlainFrame(d) && o == Offsets(ETH, UdpOff(d), Version6(d)) && newLen == |old(f.data)| - UdpOff(d)
            && old(f.data)[..UdpOff(d) + 8] == d[..UdpOff(d) + 8] ==>
              OpenedFrame(d, f.data, Packet(old(f.data)[UdpOff(d) + 8..], sport, dport), DeliveredOuter(d, tun, macs))
  {
    hide Ones, WordSum, Val, RewrittenFrame, NewIp, PlainFrame, PortsOf, UdpPayload, FiveWords, Readdressed;
    var a := TunnelAddresses(f.data, o, tun);
    var outer := Outer(a.0, a.1, [0, 0], macs);
    ghost var e := f.data;
    var sum := RewriteHeaders(f, o.ip, o.v6, sport, dport, newLen, outer);
    ghost var r := f.data;
    f.StoreBytes(12, if o.v6 then [0x86, 0xDD] else [0x08, 0x00]);
    if PlainFrame(d) && o == Offsets(ETH, UdpOff(d), Version6(d)) && newLen == |e| - UdpOff(d)
       && e[..UdpOff(d) + 8] == d[..UdpOff(d) + 8] {
      PlainParsesIn(d);
      PlainParts(d);
      assert e[ETH] == e[..UdpOff(d) + 8][ETH] == d[ETH];
      OwnAddresses(d, e, UdpOff(d) + 8);
      RewrittenReads(d, e, e[UdpOff(d) + 8..], sport, dport, outer, sum);
      assert f.data == r;
    }
  }

  lemma OwnAddresses(d: Bytes, e: Bytes, n: nat)
    requires n <= |d| && n <= |e| && e[..n] == d[..n]
    ensures n >= 54 ==> e[22..38] == d[22..38] && e[38..54] == d[38..54]
    ensures n >= 34 ==> e[26..30] == d[26..30] && e[30..34] == d[30..34]
  {
    if n >= 54 {
      SliceOfPrefix(d, n, 22, 38);
      SliceOfPrefix(e, n, 22, 38);
      SliceOfPrefix(d, n, 38, 54);
      SliceOfPrefix(e, n, 38, 54);
    }
    if n >= 34 {
      SliceOfPrefix(d, n, 26, 30);
      SliceOfPrefix(e, n, 26, 30);
      SliceOfPrefix(d, n, 30, 34);
      SliceOfPrefix(e, n, 30, 34);
    }
  }

  /** Delivered as the opened packet, or refused with the headers intact and the given payload left behind. */
  ghost predicate Outcome(d: Bytes, e: Bytes, ok: bool, packet: Option<Packet>, left: Bytes, outer: Outer)
    requires PlainFrame(d)
  {
    match packet
    case Some(p) => ok && OpenedFrame(d, e, p, outer)
    case None => !ok && e == d[..UdpOff(d) + 8] + left
  }

  lemma RefusedEarly(d: Bytes, outer: Outer)
    requires PlainFrame(d)
    ensures Outcome(d, d, false, None, UdpPayload(d), outer)
  {
    PlainLength(d);
  }

  /**
   `gut_xdp_core` in a static-peer configuration.  A plain frame to one of the
   program's ports is delivered exactly when its payload opens; a refused frame
   keeps its headers, but its payload may already be partly unmasked.
   */
  method GutXdpCore(f: Frame, ks: Keystream, quic: bool, ports: set<bv16>,
                    tun4: Option<(Bytes, Bytes)>, tun6: Option<(Bytes, Bytes)>, macs: Bytes) returns (ok: bool)
    requires |f.data| < 0x1_0000_0000 && |macs| == 12
    requires tun4.Some? ==> |tun4.value.0| == |tun4.value.1| == 4
    requires tun6.Some? ==> |tun6.value.0| == |tun6.value.1| == 16
    modifies f
    ensures PlainFrame(old(f.data)) && PortsOf(old(f.data)).1 !in ports ==> !ok && f.data == old(f.data)
    ensures PlainFrame(old(f.data)) && PortsOf(old(f.data)).1 in ports ==>
              Outcome(old(f.data), f.data, ok, KernelOpen(ks, UdpPayload(old(f.data)), quic),
                      LeftBehind(ks, UdpPayload(old(f.data)), quic),
                      DeliveredOuter(old(f.data), if Version6(old(f.data)) then tun6 else tun4, macs))
  {
    hide PlainFrame, ParseIngress, OpenClass, LeftAt, OpenAt, Outcome, Be16, PortOf, DeliveredOuter;
    ghost var d := f.data;
    if PlainFrame(d) {
      PlainParsesIn(d);
      PlainLength(d);
      RefusedEarly(d, DeliveredOuter(d, if Version6(d) then tun6 else tun4, macs));
    }
    var parsed := ParseIngress(f.data);
    if parsed.None? {
      return false;
    }
    var o := parsed.value;
    if PortOf(f.data[o.udp + 2..o.udp + 4]) !in ports {
      return false;
    }
    var len := Be16(f.data[o.udp + 4..o.udp + 6]);
    var off := o.udp + 8;
    if len < 40 || off + (len - 8) > |f.data| {
      return false;
    }
    var kind := OpenClass(quic, f.data[off]);
    if kind.None? {
      return false;
    }
    ok := OpenFrame(f, o, len, kind.value, ks, tun4, tun6, macs, d);
  }

  lemma PlainLength(d: Bytes)
    requires PlainFrame(d)
    ensures Be16(d[UdpOff(d) + 4..UdpOff(d) + 6]) == |UdpPayload(d)| + 8
    ensures |UdpPayload(d)| > 0 ==> UdpPayload(d)[0] == d[UdpOff(d) + 8]
    ensures d == d[..UdpOff(d) + 8] + UdpPayload(d)
  {
    hide Be16, FiveWords;
  }

  /** From the header class on: unmask, check, strip and deliver. */
  method OpenFrame(f: Frame, o: Offsets, len: nat, h: nat, ks: Keystream,
                   tun4: Option<(Bytes, Bytes)>, tun6: Option<(Bytes, Bytes)>, macs: Bytes,
                       ghost d: Bytes) returns (ok: bool)
    requires f.data == d && |d| < 0x1_0000_0000 && |macs| == 12 && 40 <= len < 65536
    requires tun4.Some? ==> |tun4.value.0| == |tun4.value.1| == 4
    requires tun6.Some? ==> |tun6.value.0| == |tun6.value.1| == 16
    requires ETH <= o.ip && o.udp == o.ip + IpLen(o.v6) && o.udp + len <= |d|
    requires IsHeader(h)
    modifies f
    ensures PlainFrame(d) && o == Offsets(ETH, UdpOff(d), Version6(d)) && len == |UdpPayload(d)| + 8 ==>
              if |UdpPayload(d)| < h + 32 then !ok && f.data == d
              else Outcome(d, f.data, ok, OpenAt(ks, UdpPayload(d), h), LeftAt(ks, UdpPayload(d), h),
                           DeliveredOuter(d, if o.v6 then tun6 else tun4, macs))
  {
    hide PlainFrame, LeftAt, Fields, OpenAt, OpenedFrame, DeliveredOuter;
    var off := o.udp + 8;
    if off + h + 32 > |f.data| {
      return false;
    }
    ghost var u := d[off..];
    OpenInOrder(ks, u, h);
    var n := (len - 8 + 0x1_0000_0000 - h) % 0x1_0000_0000;
    var r := Unmask(f, off, h, n, ks);
    if r.None? {
      return false;
    }
    var (ballast, sport, dport) := r.value;
    if ballast > 63 || ballast > n || n - ballast < 32 {
      return false;
    }
    ok := Finish(f, o, len, h, ballast, sport, dport, if o.v6 then tun6 else tun4, macs, d, LeftAt(ks, u, h));
  }

  /** Strips and delivers an authenticated packet. */
  method Finish(f: Frame, o: Offsets, len: nat, h: nat, ballast: nat, sport: bv16, dport: bv16,
                tun: Option<(Bytes, Bytes)>, macs: Bytes, ghost d: Bytes, ghost left: Bytes) returns (ok: bool)
    requires ETH <= o.ip && o.udp == o.ip + IpLen(o.v6) && |macs| == 12 && 40 <= len < 65536
    requires tun.Some? ==> |tun.value.0| == |tun.value.1| == if o.v6 then 16 else 4
    requires h <= LONG_HEADER && ballast <= 63 && o.udp + 8 + h + 32 <= |f.data|
    modifies f
    ensures PlainFrame(d) && o == Offsets(ETH, UdpOff(d), Version6(d)) && len == |left| + 8
            && h + ballast + 32 <= |left| && old(f.data) == d[..UdpOff(d) + 8] + left ==>
              ok && OpenedFrame(d, f.data, Packet(left[h..|left| - ballast], sport, dport),
                                DeliveredOuter(d, tun, macs))
  {
    hide PlainFrame, OpenedFrame, DeliveredOuter;
    var off := o.udp + 8;
    if off > 62 {
      return false;
    }
    var newLen := (len + 131072 - ballast - h) % 65536;
    ghost var e := f.data;
    Strip(f, off, h, ballast);
    ghost var g := f.data;
    if PlainFrame(d) && o == Offsets(ETH, UdpOff(d), Version6(d)) && len == |left| + 8
       && h + ballast + 32 <= |left| && e == d[..UdpOff(d) + 8] + left {
      StripParts(d[..off], left, h, ballast);
      assert newLen == len - ballast - h;
    }
    if o.udp + newLen > |f.data| || o.udp + 8 > |f.data| {
      return false;
    }
    Deliver(f, o, sport, dport, newLen, tun, macs, d);
    ok := true;
  }

  lemma StripParts(front: Bytes, left: Bytes, h: nat, ballast: nat)
    requires h + ballast <= |left|
    ensures var e := front + left;
            var g := e[..|front|] + e[|front| + h..|e| - ballast];
            g[..|front|] == front && g[|front|..] == left[h..|left| - ballast]
  {
  }
}
