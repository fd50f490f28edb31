/** A frame through both kernel programs. */
module KernelTunnel {
  import opened Bytes
  import opened Codec
  import opened Frames
  import opened KernelCodec
  import opened KernelEgress
  import opened KernelIngress

  /** The frame delivered at the far end carries the packet, ports and length of the frame that was sent. */
  ghost predicate Restored(d: Bytes, e: Bytes)
    requires PlainFrame(d)
  {
    PlainFrame(e) && Version6(e) == Version6(d) && UdpPayload(e) == UdpPayload(d) && PortsOf(e) == PortsOf(d)
  }

  /** What the sender can check: the ballast is not 64 bytes, and it leaves the second mask where it was. */
  ghost predicate Survives(ks: Keystream, quic: bool, wg: Bytes)
    requires |wg| >= 32
  {
    var pad := KernelBallast(quic, |wg|, WordBytes(ks(69, Nonce(wg)))[63]);
    pad != 64 && SameMask(WgType(wg[0]), |wg|, pad, WordBytes(ks(47, Nonce(wg))))
  }

  /** Opening what the kernel sends gives back the packet and its ports exactly when it survives. */
  lemma OpenInvertsSend(ks: Keystream, fill: Filler, quic: bool, wg: Bytes, sport: bv16, dport: bv16)
    requires |wg| >= 32
    ensures KernelOpen(ks, KernelWire(ks, fill, quic, wg, sport, dport), quic) == Some(Packet(wg, sport, dport))
            <==> Survives(ks, quic, wg)
  {
    hide KernelOpen, KernelWire, Wire, Nonce, WordBytes, SameMask, WgType;
    WireWithFiller(ks, fill, wg, sport, dport, quic);
    KernelOpensWire(ks, fill, wg, false, sport, dport, if quic then Quic else Gut);
  }

  /** WireGuard's own packets survive: always in GUT mode, and in QUIC mode unless 64 bytes of ballast are drawn. */
  lemma WireGuardSurvives(ks: Keystream, quic: bool, wg: Bytes)
    requires |wg| >= 32
    requires WgType(wg[0]) == 1 ==> |wg| == 148
    requires WgType(wg[0]) == 2 ==> |wg| == 92
    ensures Survives(ks, quic, wg) <==> !quic || |wg| >= 220 || WordBytes(ks(69, Nonce(wg)))[63] & 0x3F != 0x3F
  {
    hide Nonce, WordBytes, SameMask, WgType;
    var b := WordBytes(ks(69, Nonce(wg)))[63];
    FixedSizesSameMask(WgType(wg[0]), |wg|, KernelBallast(quic, |wg|, b), WordBytes(ks(47, Nonce(wg))));
    FullBallast(b);
  }

  /**
   Egress, then ingress with the same key.  Whatever the outer addresses and
   tunnel port, the frame is restored if and only if its packet survives.
   */
  method Tunnel(f: Frame, ks: Keystream, fill: Filler, quic: bool, port: bv16, ports: set<bv16>, outer4: Outer,
                outer6: Outer,
                tun4: Option<(Bytes, Bytes)>, tun6: Option<(Bytes, Bytes)>, macs: Bytes) returns (ok: bool)
    requires PlainFrame(f.data) && port in ports && port != 0
    requires WgLike(UdpPayload(f.data)) && |PlainWire(f.data, ks, fill, quic)| + 8 < 65536
    requires OuterFits(outer4, false) && OuterFits(outer6, true) && |macs| == 12
    requires tun4.Some? ==> |tun4.value.0| == |tun4.value.1| == 4
    requires tun6.Some? ==> |tun6.value.0| == |tun6.value.1| == 16
    modifies f
    ensures ok && Restored(old(f.data), f.data) <==> Survives(ks, quic, UdpPayload(old(f.data)))
    ensures Restored(old(f.data), f.data) ==> |f.data| == |old(f.data)|
  {
    hide PlainFrame, UdpPayload, PortsOf, KernelOpen, KernelWire, WgType, Survives;
    ghost var d := f.data;
    ghost var wg := UdpPayload(d);
    FrameSize(d);
    var v := GutEgress(f, ks, fill, quic, port, false, outer4, outer6);
    assert v == Sent;
    ghost var e := f.data;
    FrameSize(e);
    ok := GutXdpCore(f, ks, quic, ports, tun4, tun6, macs);
    OpenInvertsSend(ks, fill, quic, wg, PortsOf(d).0, PortsOf(d).1);
    if Restored(d, f.data) { FrameSize(f.data); }
  }
}
