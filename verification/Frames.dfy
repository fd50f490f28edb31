/** Ethernet frames as byte strings: header fields, in-place stores, and the helpers the kernel programs call. */
module Frames {
  import opened Bytes
  import opened Checksum

  const ETH: nat := 14

  // ---- Ports ---------------------------------------------------------------

  function PortOf(b: Bytes): bv16
    requires |b| == 2
  {
    ((b[0] as bv16) << 8) | (b[1] as bv16)
  }

  function PortBytes(p: bv16): (b: Bytes)
    ensures |b| == 2
  {
    [((p >> 8) & 0xFF) as Byte, (p & 0xFF) as Byte]
  }

  lemma PortRoundTrip(p: bv16)
    ensures PortOf(PortBytes(p)) == p
  {
  }

  // ---- Frame layout --------------------------------------------------------

  predicate Version6(d: Bytes) { |d| >= ETH && d[12..14] == [0x86, 0xDD] }

  function IpLen(v6: bool): nat { if v6 then 40 else 20 }

  function UdpOff(d: Bytes): nat { ETH + IpLen(Version6(d)) }

  predicate FiveWords(b: Byte) { b & 0x0F == 5 }

  /** An untagged frame without IP options whose UDP length covers exactly the rest of the frame. */
  predicate PlainFrame(d: Bytes)
    ensures PlainFrame(d) ==> |d| >= UdpOff(d) + 8
  {
    && |d| >= UdpOff(d) + 8
    && (if Version6(d) then d[20] == 17 else d[12..14] == [0x08, 0x00] && FiveWords(d[14]) && d[23] == 17)
    && Be16(d[UdpOff(d) + 4..UdpOff(d) + 6]) == |d| - UdpOff(d)
  }

  function UdpPayload(d: Bytes): Bytes
    requires |d| >= UdpOff(d) + 8
  {
    d[UdpOff(d) + 8..]
  }

  lemma FrameSize(d: Bytes)
    requires PlainFrame(d)
    ensures |d| == UdpOff(d) + 8 + |UdpPayload(d)| < 65536 + 54
  {
    hide Be16, FiveWords;
  }

  /** Source and destination port. */
  function PortsOf(d: Bytes): (bv16, bv16)
    requires |d| >= UdpOff(d) + 8
  {
    (PortOf(d[UdpOff(d)..UdpOff(d) + 2]), PortOf(d[UdpOff(d) + 2..UdpOff(d) + 4]))
  }

  // ---- Stores --------------------------------------------------------------

  function XorSlice(a: Bytes, b: Bytes): (c: Bytes)
    requires |a| == |b|
    ensures |c| == |a|
    ensures forall i :: 0 <= i < |a| ==> c[i] == XorByte(a[i], b[i])
  {
    seq(|a|, i requires 0 <= i < |a| => XorByte(a[i], b[i]))
  }

  /** A frame buffer.  The helpers the programs call are taken to succeed. */
  class Frame {
    var data: Bytes

    constructor (d: Bytes)
      ensures data == d
    {
      data := d;
    }

    method StoreBytes(off: nat, s: Bytes)
      requires off + |s| <= |data|
      modifies this
      ensures data == Splice(old(data), off, s)
    {
      data := data[..off] + s + data[off + |s|..];
    }

    /** `bpf_skb_change_tail` growing by n zero bytes. */
    method GrowTail(n: nat)
      modifies this
      ensures data == old(data) + seq(n, _ => 0)
    {
      data := data + seq(n, _ => 0);
    }

    /** `bpf_skb_adjust_room` between the link and network headers. */
    method AdjustRoom(n: nat)
      requires ETH <= |data|
      modifies this
      ensures data == old(data)[..ETH] + seq(n, _ => 0) + old(data)[ETH..]
    {
      data := data[..ETH] + seq(n, _ => 0) + data[ETH..];
    }

    /** `bpf_xdp_adjust_head` dropping n bytes. */
    method DropHead(n: nat)
      requires n <= |data|
      modifies this
      ensures data == old(data)[n..]
    {
      data := data[n..];
    }

    /** `bpf_xdp_adjust_tail` dropping n bytes. */
    method DropTail(n: nat)
      requires n <= |data|
      modifies this
      ensures data == old(data)[..|old(data)| - n]
    {
      data := data[..|data| - n];
    }
  }

  // ---- IP headers ----------------------------------------------------------

  /** The fields both programs rewrite in an IP header of either version; the rest stays. */
  function IpHeader(v6: bool, h: Bytes, len: nat, src: Bytes, dst: Bytes, sum: Bytes): (r: Bytes)
    requires |h| == IpLen(v6) && len < 65536 && |src| == |dst| == (if v6 then 16 else 4) && |sum| == 2
    ensures |r| == |h|
  {
    if v6 then h[..4] + ToBe16(len) + h[6..8] + src + dst
    else h[..2] + ToBe16(len) + h[4..10] + sum + src + dst
  }

  function UdpHeader(sport: bv16, dport: bv16, len: nat, sum: Bytes): (h: Bytes)
    requires len < 65536 && |sum| == 2
    ensures |h| == 8
  {
    PortBytes(sport) + PortBytes(dport) + ToBe16(len) + sum
  }

  lemma UdpStores(u: Bytes, sport: Bytes, dport: Bytes, len: Bytes, sum: Bytes)
    requires |u| == 8 && |sport| == 2 && |dport| == 2 && |len| == 2 && |sum| == 2
    ensures Splice(Splice(Splice(Splice(u, 4, len), 0, sport), 2, dport), 6, sum) == sport + dport + len + sum
  {
    var u1 := Splice(u, 4, len);
    var u2 := Splice(u1, 0, sport);
    var u3 := Splice(u2, 2, dport);
    assert u1 == u[..4] + len + u[6..];
    assert u2 == sport + u[2..4] + len + u[6..];
    assert u3 == sport + dport + len + u[6..];
  }

  /** Writes the four fields of the UDP header at udp. */
  method RewriteUdp(f: Frame, udp: nat, sport: bv16, dport: bv16, len: nat, sum: Bytes)
    requires udp + 8 <= |f.data| && len < 65536 && |sum| == 2
    modifies f
    ensures f.data == old(f.data)[..udp] + UdpHeader(sport, dport, len, sum) + old(f.data)[udp + 8..]
  {
    hide PortBytes, ToBe16, Splice;
    ghost var a, u, c := f.data[..udp], f.data[udp..udp + 8], f.data[udp + 8..];
    assert f.data == a + u + c;
    ghost var u1 := Splice(u, 4, ToBe16(len));
    ghost var u2 := Splice(u1, 0, PortBytes(sport));
    ghost var u3 := Splice(u2, 2, PortBytes(dport));
    SpliceInside(a, u, c, 4, ToBe16(len));
    f.StoreBytes(udp + 4, ToBe16(len));
    SpliceInside(a, u1, c, 0, PortBytes(sport));
    f.StoreBytes(udp, PortBytes(sport));
    SpliceInside(a, u2, c, 2, PortBytes(dport));
    f.StoreBytes(udp + 2, PortBytes(dport));
    SpliceInside(a, u3, c, 6, sum);
    f.StoreBytes(udp + 6, sum);
    UdpStores(u, PortBytes(sport), PortBytes(dport), ToBe16(len), sum);
  }

  lemma Ip6Stores(h: Bytes, len: Bytes, src: Bytes, dst: Bytes)
    requires |h| == 40 && |len| == 2 && |src| == 16 && |dst| == 16
    ensures Splice(Splice(Splice(h, 4, len), 8, src), 24, dst) == h[..4] + len + h[6..8] + src + dst
  {
  }

  lemma Ip4Stores(h: Bytes, len: Bytes, src: Bytes, dst: Bytes, sum: Bytes)
    requires |h| == 20 && |len| == 2 && |src| == 4 && |dst| == 4 && |sum| == 2
    ensures var z := Splice(Splice(Splice(Splice(h, 2, len), 10, [0, 0]), 12, src), 16, dst);
            z == h[..2] + len + h[4..10] + [0, 0] + src + dst
            && Splice(z, 10, sum) == WithSum(z, sum) == h[..2] + len + h[4..10] + sum + src + dst
  {
  }

  /** Writes length, addresses and, for version 4, the checksum of the IP header behind the link header. */
  method RewriteIp(f: Frame, ip: nat, v6: bool, len: nat, src: Bytes, dst: Bytes) returns (sum: Bytes)
    requires ip + IpLen(v6) <= |f.data| && len < 65536
    requires |src| == |dst| == if v6 then 16 else 4
    modifies f
    ensures |sum| == 2
    ensures var h := old(f.data)[ip..ip + IpLen(v6)];
            && f.data == old(f.data)[..ip] + IpHeader(v6, h, len, src, dst, sum) + old(f.data)[ip + IpLen(v6)..]
            && (!v6 && Val(h[0]) > 0 ==> Ones(WordSum(IpHeader(v6, h, len, src, dst, sum))) == 65535)
  {
    hide ToBe16, Splice, Ones, WordSum, Val, WithSum;
    ghost var a, h, c := f.data[..ip], f.data[ip..ip + IpLen(v6)], f.data[ip + IpLen(v6)..];
    assert f.data == a + h + c;
    if v6 {
      ghost var h1 := Splice(h, 4, ToBe16(len));
      ghost var h2 := Splice(h1, 8, src);
      SpliceInside(a, h, c, 4, ToBe16(len));
      f.StoreBytes(ip + 4, ToBe16(len));
      SpliceInside(a, h1, c, 8, src);
      f.StoreBytes(ip + 8, src);
      SpliceInside(a, h2, c, 24, dst);
      f.StoreBytes(ip + 24, dst);
      sum := [0, 0];
      Ip6Stores(h, ToBe16(len), src, dst);
    } else {
      sum := RewriteIp4(f, ip, len, src, dst, a, h, c);
    }
  }

  method RewriteIp4(f: Frame, ip: nat, len: nat, src: Bytes, dst: Bytes, ghost a: Bytes, ghost h: Bytes,
                    ghost c: Bytes) returns (sum: Bytes)
    requires |a| == ip && |h| == 20 && f.data == a + h + c && len < 65536 && |src| == |dst| == 4
    modifies f
    ensures |sum| == 2 && f.data == a + IpHeader(false, h, len, src, dst, sum) + c
    ensures Val(h[0]) > 0 ==> Ones(WordSum(IpHeader(false, h, len, src, dst, sum))) == 65535
  {
    hide ToBe16, Splice, Ones, WordSum, Val, WithSum;
    ghost var z := h[..2] + ToBe16(len) + h[4..10] + [0, 0] + src + dst;
    StoreIp4(f, ip, len, src, dst, a, h, c);
    Middle(a, z, c);
    assert z[0] == h[0] && z[10] == 0 && z[11] == 0;
    sum := NativeChecksum(f.data[ip..ip + 20]);
    Ip4Stores(h, ToBe16(len), src, dst, sum);
    SpliceInside(a, z, c, 10, sum);
    f.StoreBytes(ip + 10, sum);
  }

  /** Length and addresses, with the checksum field cleared. */
  method StoreIp4(f: Frame, ip: nat, len: nat, src: Bytes, dst: Bytes, ghost a: Bytes, ghost h: Bytes, ghost c: Bytes)
    requires |a| == ip && |h| == 20 && f.data == a + h + c && len < 65536 && |src| == |dst| == 4
    modifies f
    ensures f.data == a + (h[..2] + ToBe16(len) + h[4..10] + [0, 0] + src + dst) + c
  {
    hide ToBe16, Splice;
    ghost var h1 := Splice(h, 2, ToBe16(len));
    ghost var h2 := Splice(h1, 10, [0, 0]);
    ghost var h3 := Splice(h2, 12, src);
    SpliceInside(a, h, c, 2, ToBe16(len));
    f.StoreBytes(ip + 2, ToBe16(len));
    SpliceInside(a, h1, c, 10, [0, 0]);
    f.StoreBytes(ip + 10, [0, 0]);
    SpliceInside(a, h2, c, 12, src);
    f.StoreBytes(ip + 12, src);
    SpliceInside(a, h3, c, 16, dst);
    f.StoreBytes(ip + 16, dst);
    Ip4Stores(h, ToBe16(len), src, dst, [0, 0]);
  }

  /** Reading back a frame assembled from its parts. */
  lemma AssembledFrame(macs: Bytes, proto: Bytes, ip: Bytes, sport: bv16, dport: bv16, sum: Bytes, payload: Bytes,
                       v6: bool)
    requires |macs| == 12 && |ip| == IpLen(v6) && |sum| == 2 && |payload| + 8 < 65536
    requires proto == if v6 then [0x86, 0xDD] else [0x08, 0x00]
    requires if v6 then ip[6] == 17 else FiveWords(ip[0]) && ip[9] == 17
    ensures var d := macs + proto + ip + UdpHeader(sport, dport, |payload| + 8, sum) + payload;
            Version6(d) == v6 && PlainFrame(d) && UdpPayload(d) == payload && PortsOf(d) == (sport, dport)
            && d[12..14] == proto && d[ETH..UdpOff(d)] == ip
  {
    hide PortOf, PortBytes, Be16, ToBe16, FiveWords;
    var u := UdpHeader(sport, dport, |payload| + 8, sum);
    var d := macs + proto + ip + u + payload;
    assert d[12..14] == proto;
    assert proto[0] == if v6 then 0x86 else 0x08;
    var o := UdpOff(d);
    assert d == (macs + proto) + ip + (u + payload);
    Middle(macs + proto, ip, u + payload);
    assert d == (macs + proto + ip) + u + payload;
    Middle(macs + proto + ip, u, payload);
    assert d[o..o + 8] == u && d[o + 8..] == payload;
    SliceOfSlice(d, o, o + 8, 0, 2);
    SliceOfSlice(d, o, o + 8, 2, 4);
    SliceOfSlice(d, o, o + 8, 4, 6);
    UdpFields(sport, dport, |payload| + 8, sum);
    assert d[20] == d[14..o][6] && d[14] == d[14..o][0] && (!v6 ==> d[23] == d[14..o][9]);
    Be16RoundTrip(|payload| + 8);
    PortRoundTrip(sport);
    PortRoundTrip(dport);
  }

  lemma UdpFields(sport: bv16, dport: bv16, len: nat, sum: Bytes)
    requires len < 65536 && |sum| == 2
    ensures var u := UdpHeader(sport, dport, len, sum);
            u[0..2] == PortBytes(sport) && u[2..4] == PortBytes(dport) && u[4..6] == ToBe16(len)
  {
    hide PortBytes, ToBe16;
  }

  /** Every plain frame has that shape. */
  lemma PlainParts(d: Bytes)
    requires PlainFrame(d)
    ensures var o := UdpOff(d);
            && d == d[..12] + d[12..14] + d[ETH..o] + d[o..o + 8] + UdpPayload(d)
            && |UdpPayload(d)| + 8 < 65536
            && (if Version6(d) then d[ETH..o][6] == 17
                else d[12..14] == [0x08, 0x00] && FiveWords(d[ETH..o][0]) && d[ETH..o][9] == 17)
  {
    hide Be16, FiveWords;
  }

  // ---- Readdressing --------------------------------------------------------

  /** New addresses of a packet, its UDP checksum field and its MAC addresses. */
  datatype Outer = Outer(src: Bytes, dst: Bytes, udpSum: Bytes, macs: Bytes)

  predicate OuterFits(outer: Outer, v6: bool) {
    |outer.src| == |outer.dst| == (if v6 then 16 else 4) && |outer.udpSum| == 2 && |outer.macs| == 12
  }

  function IpTotal(v6: bool, len: nat): (n: nat)
    ensures n < 65536
  {
    if v6 then len % 65536 else (len + 20) % 65536
  }

  function NewIp(d: Bytes, ip: nat, v6: bool, len: nat, outer: Outer, sum: Bytes): (h: Bytes)
    requires ip + IpLen(v6) <= |d| && OuterFits(outer, v6) && |sum| == 2
    ensures |h| == IpLen(v6)
  {
    IpHeader(v6, d[ip..ip + IpLen(v6)], IpTotal(v6, len), outer.src, outer.dst, sum)
  }

  function RewrittenFrame(d: Bytes, ip: nat, v6: bool, sport: bv16, dport: bv16, len: nat, outer: Outer,
                          sum: Bytes): (r: Bytes)
    requires ETH <= ip && ip + IpLen(v6) + 8 <= |d| && OuterFits(outer, v6) && len < 65536 && |sum| == 2
    ensures |r| == |d|
  {
    outer.macs + d[12..ip] + NewIp(d, ip, v6, len, outer, sum) + UdpHeader(sport, dport, len, outer.udpSum)
        + d[ip + IpLen(v6) + 8..]
  }

  /** Rewrites link, network and UDP header of a frame whose new payload is in place. */
  method RewriteHeaders(f: Frame, ip: nat, v6: bool, sport: bv16, dport: bv16, udpLen: nat,
                        outer: Outer) returns (sum: Bytes)
    requires ETH <= ip && ip + IpLen(v6) + 8 <= |f.data| && OuterFits(outer, v6)
    modifies f
    ensures |sum| == 2 && f.data == RewrittenFrame(old(f.data), ip, v6, sport, dport, udpLen % 65536, outer, sum)
    ensures !v6 && Val(old(f.data)[ip]) > 0
            ==> Ones(WordSum(NewIp(old(f.data), ip, v6, udpLen % 65536, outer, sum))) == 65535
  {
    hide Ones, WordSum, Val, IpHeader, UdpHeader, Splice;
    ghost var d := f.data;
    var len := udpLen % 65536;
    sum := RewriteIp(f, ip, v6, IpTotal(v6, len), outer.src, outer.dst);
    var o := ip + IpLen(v6);
    HeaderSteps(d, ip, o, NewIp(d, ip, v6, len, outer, sum), UdpHeader(sport, dport, len, outer.udpSum), outer.macs);
    RewriteUdp(f, o, sport, dport, len, outer.udpSum);
    f.StoreBytes(0, outer.macs);
  }

  /** The three rewrites, one behind the other. */
  lemma HeaderSteps(d: Bytes, ip: nat, o: nat, h: Bytes, u: Bytes, macs: Bytes)
    requires ETH <= ip < o && o + 8 <= |d| && |h| == o - ip && |u| == 8 && |macs| == 12
    ensures var d1 := d[..ip] + h + d[o..];
            var d2 := d1[..o] + u + d1[o + 8..];
            Splice(d2, 0, macs) == macs + d[12..ip] + h + u + d[o + 8..]
    ensures d[ip..o][0] == d[ip]
  {
    var d1 := d[..ip] + h + d[o..];
    var d2 := d1[..o] + u + d1[o + 8..];
    assert d1[..o] == d[..ip] + h && d1[o + 8..] == d[o + 8..];
    assert d2 == [] + d[..12] + (d[12..ip] + h + u + d[o + 8..]);
    SpliceParts([], d[..12], d[12..ip] + h + u + d[o + 8..], macs);
  }

  lemma ProtocolKept(v6: bool, h: Bytes, len: nat, outer: Outer, sum: Bytes)
    requires |h| == IpLen(v6) && len < 65536 && OuterFits(outer, v6) && |sum| == 2
    ensures var r := IpHeader(v6, h, len, outer.src, outer.dst, sum);
            r[0] == h[0] && (v6 ==> r[6] == h[6]) && (!v6 ==> r[9] == h[9])
  {
    hide ToBe16;
  }

  /**
   The headers of e: the given link and network addresses and UDP checksum, an
   IP length that covers the rest of the frame, and everything else as in d.
   */
  ghost predicate Readdressed(d: Bytes, e: Bytes, outer: Outer)
    requires PlainFrame(d) && PlainFrame(e)
  {
    && Version6(e) == Version6(d) && e[..12] == outer.macs && e[12..14] == d[12..14]
    && e[UdpOff(e) + 6..UdpOff(e) + 8] == outer.udpSum
    && (if Version6(e)
        then && Be16(e[18..20]) == (|e| - 54) % 65536 && e[22..38] == outer.src && e[38..54] == outer.dst
             && e[14..18] == d[14..18] && e[20..22] == d[20..22]
        else && Be16(e[16..18]) == (|e| - 14) % 65536 && e[26..30] == outer.src && e[30..34] == outer.dst
             && e[14..16] == d[14..16] && e[18..24] == d[18..24])
  }

  /** The fields of a rewritten IP header. */
  lemma IpFields(v6: bool, h: Bytes, len: nat, src: Bytes, dst: Bytes, sum: Bytes)
    requires |h| == IpLen(v6) && len < 65536 && |src| == |dst| == (if v6 then 16 else 4) && |sum| == 2
    ensures var r := IpHeader(v6, h, len, src, dst, sum);
            if v6
            then && Be16(r[4..6]) == len && r[8..24] == src && r[24..40] == dst
                 && r[..4] == h[..4] && r[6..8] == h[6..8]
            else && Be16(r[2..4]) == len && r[12..16] == src && r[16..20] == dst
                 && r[..2] == h[..2] && r[4..10] == h[4..10]
  {
    hide ToBe16, Be16;
    Be16RoundTrip(len);
    var r := IpHeader(v6, h, len, src, dst, sum);
    if v6 {
      assert r[4..6] == ToBe16(len);
    } else {
      assert r[2..4] == ToBe16(len);
    }
  }

  /** A frame put together with a rewritten IP header is readdressed. */
  lemma AssembledReaddressed(d: Bytes, r: Bytes, outer: Outer, h: Bytes, sum: Bytes, len: nat)
    requires PlainFrame(d) && PlainFrame(r) && Version6(r) == Version6(d) && OuterFits(outer, Version6(d)) && |sum| == 2
    requires r[..12] == outer.macs && r[12..14] == d[12..14] && h == d[ETH..UdpOff(d)]
    requires r[UdpOff(r) + 6..UdpOff(r) + 8] == outer.udpSum && len == |r| - UdpOff(r)
    requires r[ETH..UdpOff(r)] == IpHeader(Version6(d), h, IpTotal(Version6(d), len), outer.src, outer.dst, sum)
    ensures Readdressed(d, r, outer)
  {
    hide PlainFrame, IpHeader, Be16, FiveWords;
    var v6, o := Version6(d), UdpOff(d);
    IpFields(v6, h, IpTotal(v6, len), outer.src, outer.dst, sum);
    var ip := r[ETH..o];
    if v6 {
      SliceOfSlice(r, ETH, o, 4, 6);
      SliceOfSlice(r, ETH, o, 8, 24);
      SliceOfSlice(r, ETH, o, 24, 40);
      SliceOfSlice(r, ETH, o, 6, 8);
      SliceOfSlice(d, ETH, o, 6, 8);
      SliceOfSlice(r, ETH, o, 0, 4);
      SliceOfSlice(d, ETH, o, 0, 4);
    } else {
      SliceOfSlice(r, ETH, o, 2, 4);
      SliceOfSlice(r, ETH, o, 12, 16);
      SliceOfSlice(r, ETH, o, 16, 20);
      SliceOfSlice(r, ETH, o, 4, 10);
      SliceOfSlice(d, ETH, o, 4, 10);
      SliceOfSlice(r, ETH, o, 0, 2);
      SliceOfSlice(d, ETH, o, 0, 2);
    }
  }

  /** A frame e with the headers of a plain frame d and payload w, readdressed, is again plain and carries w. */
  lemma RewrittenReads(d: Bytes, e: Bytes, w: Bytes, sport: bv16, dport: bv16, outer: Outer, sum: Bytes)
    requires PlainFrame(d) && OuterFits(outer, Version6(d)) && |sum| == 2 && |w| + 8 < 65536
    requires |e| == UdpOff(d) + 8 + |w| && e[..UdpOff(d) + 8] == d[..UdpOff(d) + 8] && e[UdpOff(d) + 8..] == w
    ensures var r := RewrittenFrame(e, ETH, Version6(d), sport, dport, |w| + 8, outer, sum);
            && PlainFrame(r) && Version6(r) == Version6(d) && UdpPayload(r) == w && PortsOf(r) == (sport, dport)
            && r[12..14] == d[12..14] && r[ETH..UdpOff(r)] == NewIp(e, ETH, Version6(d), |w| + 8, outer, sum)
            && Readdressed(d, r, outer)
  {
    hide PlainFrame, UdpPayload, PortsOf, UdpHeader, FiveWords, Readdressed;
    PlainParts(d);
    var v6, o := Version6(d), UdpOff(d);
    SliceOfPrefix(d, o + 8, 12, 14);
    SliceOfPrefix(e, o + 8, 12, 14);
    SliceOfPrefix(d, o + 8, ETH, o);
    SliceOfPrefix(e, o + 8, ETH, o);
    ProtocolKept(v6, d[ETH..o], IpTotal(v6, |w| + 8), outer, sum);
    var h := NewIp(e, ETH, v6, |w| + 8, outer, sum);
    AssembledFrame(outer.macs, d[12..14], h, sport, dport, outer.udpSum, w, v6);
    var r := RewrittenFrame(e, ETH, v6, sport, dport, |w| + 8, outer, sum);
    LinkAndSum(outer.macs, d[12..14], h, sport, dport, |w| + 8, outer.udpSum, w);
    AssembledReaddressed(d, r, outer, d[ETH..o], sum, |w| + 8);
  }

  /** Source port, destination port, length, checksum; each most significant byte first. */
  lemma UdpHeaderBytes()
    ensures UdpHeader(0x1234, 0x5678, 258, [0xAA, 0xBB]) == [0x12, 0x34, 0x56, 0x78, 1, 2, 0xAA, 0xBB]
    ensures PortOf([0x12, 0x34]) == 0x1234
  {
    hide ToByte;
    TwoBytes(258, 1, 2);
  }

  lemma TwoBytes(n: nat, hi: Byte, lo: Byte)
    requires n < 65536 && n == 256 * Val(hi) + Val(lo)
    ensures ToBe16(n) == [hi, lo]
  {
    hide ToByte, Val;
    assert n / 256 == Val(hi) && n % 256 == Val(lo);
    ByteOfValue(ToByte(n / 256), hi);
    ByteOfValue(ToByte(n % 256), lo);
  }

  lemma ByteOfValue(a: Byte, b: Byte)
    requires Val(a) == Val(b)
    ensures a == b
  {
  }

  lemma LinkAndSum(macs: Bytes, proto: Bytes, ip: Bytes, sport: bv16, dport: bv16, len: nat, sum: Bytes, payload: Bytes)
    requires |macs| == 12 && |proto| == 2 && |sum| == 2 && len < 65536
    ensures var r := macs + proto + ip + UdpHeader(sport, dport, len, sum) + payload;
            r[..12] == macs && r[ETH + |ip| + 6..ETH + |ip| + 8] == sum
  {
    hide PortBytes, ToBe16;
    var u := UdpHeader(sport, dport, len, sum);
    var r := macs + proto + ip + u + payload;
    Middle(macs + proto + ip, u, payload);
    SliceOfSlice(r, ETH + |ip|, ETH + |ip| + 8, 6, 8);
    assert u[6..8] == sum;
  }

  lemma Nibble(b: Byte)
    requires FiveWords(b)
    ensures Val(b) % 16 == 5 && Val(b) > 0
  {
    assert b & 0x0F == b % 16;
    assert (b % 16) as nat == b as nat % 16;
  }
}
