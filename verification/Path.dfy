/** The whole path: egress framing, envelope classification, verification and decapsulation. */
module Path {
  import opened Bytes
  import opened Scan
  import opened Codec
  import opened CodecLaws
  import opened Base64
  import opened Claims
  import Syslog
  import Sip
  import SipLaws
  import SipSize
  import Calendar

  // ---- Egress --------------------------------------------------------------

  /** What the egress thread prints around a packet: clock, domain and SIP fields. */
  datatype Env = Env(now: nat, domain: Bytes, sip: Sip.Fields)

  predicate UsesRtp(wg: Bytes)
    requires |wg| > 0
  {
    wg[0] == 4 && |wg| > 32
  }

  function SipKindOf(wg: Bytes): Sip.Kind
    requires |wg| > 0
  {
    if wg[0] == 1 then Sip.Register
    else if wg[0] == 2 then Sip.Response200
    else if wg[0] == 3 then Sip.Response401
    else if wg[0] == 4 && |wg| == 32 then Sip.Options
    else Sip.Message
  }

  /** The datagram sent for a packet whose wire image is w. */
  function Envelope(mode: Mode, env: Env, wg: Bytes, w: Bytes, dcid: bv32): Bytes
    requires |wg| > 0
  {
    match mode
    case Syslog => Syslog.Header(env.now, env.domain) + Encoded(w)
    case Sip =>
      if UsesRtp(wg) then Sip.RtpHeader(Nonce(w), dcid) + w
      else
        var body := if SipKindOf(wg).Options? then [] else Encoded(w);
        Sip.Header(SipKindOf(wg), env.sip, |body|) + body
    case _ => w
  }

  function Egress(ks: Keystream, fill: Filler, wg: Bytes, isServer: bool, sport: bv16, dport: bv16, mode: Mode,
                  env: Env): Bytes
    requires |wg| >= 16
  {
    Envelope(mode, env, wg, Wire(ks, fill, wg, isServer, sport, dport, mode), ks(47, Nonce(wg))[9])
  }

  // ---- Ingress -------------------------------------------------------------

  /** Outcome of the envelope stage: dropped, answered as a SIP probe, or passed on with the detected mode. */
  datatype Inner = Dropped | Probe | Payload(bytes: Bytes, detected: Option<Mode>)

  function Strip(buf: Bytes): Inner {
    match Syslog.Check(buf)
    case Some(h) =>
      var b64 := Behind(buf, h);
      if Valid(b64) then Payload(Decoded(b64), Some(Syslog)) else Dropped
    case None =>
      match Sip.Check(buf)
      case Some(h) =>
        var b64 := Behind(buf, h);
        if Valid(b64) && Decoded(b64) != [] then Payload(Decoded(b64), Some(Sip)) else Probe
      case None =>
        if Sip.CheckRtp(buf) then Payload(buf[Sip.RTP_HEADER..], Some(Sip))
        else Payload(buf, None)
  }

  /** `buf[h..]`; both recognisers return a position inside the buffer. */
  function Behind(buf: Bytes, h: nat): Bytes {
    if h <= |buf| then buf[h..] else []
  }

  predicate QuicBits(b: Bytes) {
    |b| > 0 && (b[0] & 0x40 == 0x40 || b[0] & 0x80 == 0x80)
  }

  function ClientIngress(ks: Keystream, obfs: Mode, buf: Bytes): Option<Packet> {
    match Strip(buf)
    case Payload(b, _) =>
      if obfs != Quic then
        if |b| >= SHORT_HEADER + 16 && Verify(ks, b, |b|, Gut) then Decap(ks, b, |b|, obfs) else None
      else
        if QuicBits(b) && Verify(ks, b, |b|, Quic) then Decap(ks, b, |b|, Quic) else None
    case _ => None
  }

  /** The server detects the mode: QUIC first, then the ten-byte header with the envelope's mode. */
  function ServerIngress(ks: Keystream, buf: Bytes): Option<(Packet, Mode)> {
    match Strip(buf)
    case Payload(b, detected) =>
      if QuicBits(b) && Verify(ks, b, |b|, Quic) then
        match Decap(ks, b, |b|, Quic) case Some(p) => Some((p, Quic)) case None => None
      else if Verify(ks, b, |b|, Gut) then
        var mode := if detected.Some? then detected.value else Gut;
        match Decap(ks, b, |b|, mode) case Some(p) => Some((p, mode)) case None => None
      else None
    case _ => None
  }

  // ---- Classification ------------------------------------------------------

  /** Raw bytes pass the envelope stage untouched exactly when no recogniser claims them. */
  lemma StripRaw(buf: Bytes)
    ensures Strip(buf) == Payload(buf, None) <==> !Claimed(buf)
  {
    hide Syslog.Check, Sip.Check, Sip.CheckRtp, Decoded;
  }

  lemma FlagsUnclaimed(b: Byte)
    requires b == 0x40 || b & 0xC0 == 0xC0
    ensures b != 0x3C && b !in {0x49, 0x52, 0x4D, 0x4F, 0x53} && b & 0xC0 != 0x80
  {
  }

  lemma QuicFirstByte(ks: Keystream, fill: Filler, wg: Bytes, isServer: bool, sport: bv16, dport: bv16)
    requires |wg| >= 16
    ensures var w := Wire(ks, fill, wg, isServer, sport, dport, Quic);
            |w| > 0 && (w[0] == 0x40 || w[0] & 0xC0 == 0xC0) && QuicBits(w)
  {
    hide LeBytes, BallastCode, SealPorts, LongFlags, WordBytes, MaskAs, Nonce, WgType, BallastFor;
    LongFirstByte(WgType(wg[0]), fill);
  }

  /** A QUIC wire image is never taken for an envelope. */
  lemma QuicUnclaimed(ks: Keystream, fill: Filler, wg: Bytes, isServer: bool, sport: bv16, dport: bv16)
    requires |wg| >= 16
    ensures !Claimed(Wire(ks, fill, wg, isServer, sport, dport, Quic))
  {
    hide Wire, Syslog.Check, Sip.Check;
    var w := Wire(ks, fill, wg, isServer, sport, dport, Quic);
    QuicFirstByte(ks, fill, wg, isServer, sport, dport);
    FlagsUnclaimed(w[0]);
    if Claimed(w) {
      ClaimedFirstByte(w);
    }
  }

  lemma RtpStrip(ts: bv32, ssrc: bv32, w: Bytes)
    ensures Strip(Sip.RtpHeader(ts, ssrc) + w) == Payload(w, Some(Sip))
  {
    hide Syslog.Check, Sip.Check, BeBytes;
    var buf := Sip.RtpHeader(ts, ssrc) + w;
    SipLaws.CheckRtpInvertsHeader(ts, ssrc, w);
    assert buf[0] == 0x80;
    ClaimedFirstByte(buf);
    assert buf[Sip.RTP_HEADER..] == w;
  }

  lemma SyslogStrip(t: Calendar.Date, tod: nat, name: Bytes, w: Bytes)
    requires Calendar.ValidDate(t) && tod < 86400 && t.year < 10000 && |name| <= 32 && Syslog.MarkerFreeName(name)
    ensures Strip(Syslog.HeaderAt(t, tod, name) + Encoded(w)) == Payload(w, Some(Syslog))
  {
    hide Syslog.Check, Sip.Check, Syslog.HeaderAt, Encoded, Decoded, Syslog.MarkerFreeName;
    var h := Syslog.HeaderAt(t, tod, name);
    Syslog.CheckInvertsHeaderAt(t, tod, name, Encoded(w));
    assert (h + Encoded(w))[|h|..] == Encoded(w);
    DecodeInvertsEncode(w);
  }

  lemma SyslogEnvelope(now: nat, name: Bytes, w: Bytes)
    ensures SyslogReadable(now, name) ==> Strip(Syslog.Header(now, name) + Encoded(w)) == Payload(w, Some(Syslog))
  {
    hide Calendar.SyslogDate, Strip, Syslog.HeaderAt, Encoded, Syslog.MarkerFreeName;
    Syslog.DateIsValid(now);
    if SyslogReadable(now, name) { SyslogStrip(Calendar.SyslogDate(now), now % 86400, name, w); }
  }

  lemma SipStrip(kind: Sip.Kind, f: Sip.Fields, w: Bytes)
    requires SipLaws.CleanFields(f) && w != []
    ensures Strip(Sip.Header(kind, f, |Encoded(w)|) + Encoded(w)) == Payload(w, Some(Sip))
  {
    hide Syslog.Check, Sip.Check, Sip.Header, Encoded, Decoded, SipLaws.CleanFields, Sip.StartsLikeSip;
    var h := Sip.Header(kind, f, |Encoded(w)|);
    var buf := h + Encoded(w);
    SipLaws.CheckInvertsHeader(kind, f, |Encoded(w)|, Encoded(w));
    SipLaws.HeaderStarts(kind, f, |Encoded(w)|, Encoded(w));
    ClaimedFirstByte(buf);
    assert buf[|h|..] == Encoded(w);
    DecodeInvertsEncode(w);
  }

  // ---- Delivery ------------------------------------------------------------

  predicate SyslogReadable(now: nat, name: Bytes) {
    Calendar.SyslogDate(now).year < 10000 && |name| <= 32 && Syslog.MarkerFreeName(name)
  }

  /** The empty WireGuard keepalive, which SIP mode sends as a bare OPTIONS request. */
  predicate SipKeepalive(mode: Mode, wg: Bytes)
    requires |wg| > 0
  {
    mode == Sip && wg[0] == 4 && |wg| == 32
  }

  /** A name without spaces is readable until the end of the year 9999. */
  lemma PlainNameReadable(now: nat, name: Bytes)
    requires now < Syslog.YEAR_10000 && |name| <= 32 && 0x20 !in name
    ensures SyslogReadable(now, name)
  {
    hide Syslog.MarkerFreeName, Calendar.SyslogDate;
    Syslog.SpacelessIsMarkerFree(name);
    Syslog.YearBefore10000(now);
  }

  /** What the writer of an envelope needs. */
  predicate Readable(ks: Keystream, fill: Filler, wg: Bytes, isServer: bool, sport: bv16, dport: bv16, mode: Mode,
                     env: Env)
    requires |wg| >= 16
  {
    match mode
    case Quic | Gut => true
    case Syslog => SyslogReadable(env.now, env.domain)
    case Sip =>
      UsesRtp(wg) || (SipLaws.CleanFields(env.sip) && SipFits(env, wg, Wire(ks, fill, wg, isServer, sport, dport, Sip)))
  }

  /** The wire image does not look like an envelope, which only a GUT one can. */
  predicate LooksRaw(ks: Keystream, fill: Filler, wg: Bytes, isServer: bool, sport: bv16, dport: bv16, mode: Mode)
    requires |wg| >= 16
  {
    var k47 := ks(47, Nonce(wg));
    mode == Gut ==> !Collides(k47[10], SealPorts(sport, dport, k47[11]),
        Wire(ks, fill, wg, isServer, sport, dport, Gut))
  }

  /** The header fits the buffer it is printed into; the writer panics otherwise. */
  predicate SipFits(env: Env, wg: Bytes, w: Bytes)
    requires |wg| > 0
  {
    |Sip.Header(SipKindOf(wg), env.sip, if SipKindOf(wg).Options? then 0 else |Encoded(w)|)| <= Sip.MAX_HEADER
  }

  /** Fields of ordinary size always fit, for packets of up to 6700 bytes. */
  lemma ShortFieldsFit(env: Env, wg: Bytes, w: Bytes)
    requires |wg| > 0 && |w| <= 6700 && SipSize.ShortFields(env.sip)
    ensures SipFits(env, wg, w)
  {
    hide SipSize.ShortFields, Sip.Header, Encoded;
    SipSize.ShortHeaderFits(SipKindOf(wg), env.sip, if SipKindOf(wg).Options? then 0 else |Encoded(w)|);
  }

  lemma WireNotEmpty(ks: Keystream, fill: Filler, wg: Bytes, isServer: bool, sport: bv16, dport: bv16, mode: Mode)
    requires |wg| >= 16
    ensures |Wire(ks, fill, wg, isServer, sport, dport, mode)| >= |wg| + 10
  {
    hide Header, MaskAs, SealPorts, WordBytes, Nonce, WgType, BallastFor;
  }

  /** The mode that the envelope stage detects for what was sent. */
  function EnvelopeMode(mode: Mode): Option<Mode> { if mode == Syslog || mode == Sip then Some(mode) else None }

  /**
   Every envelope except the keepalive's is stripped back to the wire image exactly when that does
   not look like another.
   */
  lemma StripInvertsEnvelope(ks: Keystream, fill: Filler, wg: Bytes, isServer: bool, sport: bv16, dport: bv16,
                             mode: Mode, env: Env)
    requires |wg| >= 16 && !SipKeepalive(mode, wg)
    requires Readable(ks, fill, wg, isServer, sport, dport, mode, env)
    ensures Strip(Egress(ks, fill, wg, isServer, sport, dport, mode, env))
            == Payload(Wire(ks, fill, wg, isServer, sport, dport, mode), EnvelopeMode(mode))
            <==> LooksRaw(ks, fill, wg, isServer, sport, dport, mode)
  {
    hide Wire, Strip, Claimed, Collides, Encoded, Syslog.Header, Sip.Header, Sip.RtpHeader, Nonce, SealPorts;
    hide SyslogReadable, SipLaws.CleanFields, SipFits;
    var w := Wire(ks, fill, wg, isServer, sport, dport, mode);
    WireNotEmpty(ks, fill, wg, isServer, sport, dport, mode);
    match mode
    case Quic =>
      QuicUnclaimed(ks, fill, wg, isServer, sport, dport);
      StripRaw(w);
    case Gut =>
      GutClaimedIff(ks, fill, wg, isServer, sport, dport);
      StripRaw(w);
    case Syslog =>
      SyslogEnvelope(env.now, env.domain, w);
    case Sip =>
      if UsesRtp(wg) {
        RtpStrip(Nonce(w), ks(47, Nonce(wg))[9], w);
      } else {
        SipStrip(SipKindOf(wg), env.sip, w);
      }
  }

  /**
   Whole path to a client: every packet of at least 32 bytes arrives with its
   bytes and ports unchanged, except the SIP keepalive, which never arrives.
   */
  lemma ClientDelivers(ks: Keystream, fill: Filler, wg: Bytes, isServer: bool, sport: bv16, dport: bv16, mode: Mode,
                       env: Env)
    requires |wg| >= 32
    requires Readable(ks, fill, wg, isServer, sport, dport, mode, env)
    requires LooksRaw(ks, fill, wg, isServer, sport, dport, mode)
    ensures ClientIngress(ks, mode, Egress(ks, fill, wg, isServer, sport, dport, mode, env))
            == if SipKeepalive(mode, wg) then None else Some(Packet(wg, sport, dport))
  {
    hide Wire, Strip, Egress, Verify, Decap, Readable, LooksRaw;
    if SipKeepalive(mode, wg) {
      KeepaliveIsProbe(ks, fill, wg, isServer, sport, dport, env);
    } else {
      var w := Wire(ks, fill, wg, isServer, sport, dport, mode);
      StripInvertsEnvelope(ks, fill, wg, isServer, sport, dport, mode, env);
      WireNotEmpty(ks, fill, wg, isServer, sport, dport, mode);
      VerifyAcceptsEncap(ks, fill, wg, isServer, sport, dport, mode, if mode == Quic then Quic else Gut);
      DecapInvertsEncap(ks, fill, wg, isServer, sport, dport, mode, mode);
      if mode == Quic {
        QuicFirstByte(ks, fill, wg, isServer, sport, dport);
      }
    }
  }

  /** The keepalive is classified as a probe, so nothing is delivered. */
  lemma KeepaliveIsProbe(ks: Keystream, fill: Filler, wg: Bytes, isServer: bool, sport: bv16, dport: bv16, env: Env)
    requires |wg| == 32 && wg[0] == 4
    requires Readable(ks, fill, wg, isServer, sport, dport, Sip, env)
    ensures Strip(Egress(ks, fill, wg, isServer, sport, dport, Sip, env)) == Probe
  {
    hide Wire, Syslog.Check, Sip.Check, Sip.Header, SipLaws.CleanFields, Sip.StartsLikeSip;
    var h := Sip.Header(Sip.Options, env.sip, 0);
    var buf := Egress(ks, fill, wg, isServer, sport, dport, Sip, env);
    assert buf == h + [] == h;
    SipLaws.CheckInvertsBareHeader(Sip.Options, env.sip);
    SipLaws.HeaderStarts(Sip.Options, env.sip, 0, []);
    ClaimedFirstByte(buf);
    assert buf[|h|..] == [];
  }

  /** The stripped wire image of a non-QUIC packet also passes the QUIC check. */
  predicate LooksQuic(ks: Keystream, w: Bytes) { QuicBits(w) && Verify(ks, w, |w|, Quic) }

  /**
   Whole path to a server: the packet arrives and its mode is detected if and
   only if its bytes neither look like an envelope nor pass the QUIC check.
   */
  lemma ServerDelivers(ks: Keystream, fill: Filler, wg: Bytes, isServer: bool, sport: bv16, dport: bv16, mode: Mode,
                       env: Env)
    requires |wg| >= 32 && !SipKeepalive(mode, wg)
    requires Readable(ks, fill, wg, isServer, sport, dport, mode, env)
    ensures ServerIngress(ks, Egress(ks, fill, wg, isServer, sport, dport, mode, env))
            == Some((Packet(wg, sport, dport), mode))
            <==> LooksRaw(ks, fill, wg, isServer, sport, dport, mode)
                 && (mode == Quic || !LooksQuic(ks, Wire(ks, fill, wg, isServer, sport, dport, mode)))
  {
    hide Wire, Strip, Egress, Verify, Decap, Readable, LooksRaw;
    StripInvertsEnvelope(ks, fill, wg, isServer, sport, dport, mode, env);
    VerifyAcceptsEncap(ks, fill, wg, isServer, sport, dport, mode, if mode == Quic then Quic else Gut);
    DecapInvertsEncap(ks, fill, wg, isServer, sport, dport, mode, mode);
    if mode == Quic {
      QuicFirstByte(ks, fill, wg, isServer, sport, dport);
    }
    if !LooksRaw(ks, fill, wg, isServer, sport, dport, mode) {
      OnlyGutCollides(ks, fill, wg, isServer, sport, dport, mode);
      GutIsRaw(ks, fill, wg, isServer, sport, dport, env);
      ClaimedIsNotGut(Wire(ks, fill, wg, isServer, sport, dport, Gut));
    }
  }

  lemma OnlyGutCollides(ks: Keystream, fill: Filler, wg: Bytes, isServer: bool, sport: bv16, dport: bv16, mode: Mode)
    requires |wg| >= 16 && !LooksRaw(ks, fill, wg, isServer, sport, dport, mode)
    ensures mode == Gut && Claimed(Wire(ks, fill, wg, isServer, sport, dport, Gut))
  {
    hide Wire, Claimed, Collides, Nonce, SealPorts;
    GutClaimedIff(ks, fill, wg, isServer, sport, dport);
  }

  lemma GutIsRaw(ks: Keystream, fill: Filler, wg: Bytes, isServer: bool, sport: bv16, dport: bv16, env: Env)
    requires |wg| >= 16
    ensures Egress(ks, fill, wg, isServer, sport, dport, Gut, env) == Wire(ks, fill, wg, isServer, sport, dport, Gut)
  {
    hide Wire;
  }

  /** Claimed bytes never leave the envelope stage without a mode. */
  lemma ClaimedIsNotGut(buf: Bytes)
    requires Claimed(buf)
    ensures Strip(buf).Payload? ==> Strip(buf).detected in {Some(Syslog), Some(Sip)}
  {
    hide Syslog.Check, Sip.Check, Sip.CheckRtp, Decoded;
  }
}
