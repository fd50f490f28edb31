/** The SIP envelope: request and response headers with an SDP body, and the RTP header. */
module Sip {
  import opened Bytes
  import opened Scan

  datatype Kind = Register | Message | Options | Response200 | Response401 | Response403

  /** Everything a header prints: addresses and names as text, the rest as numbers. */
  datatype Fields = Fields(
    domain: Bytes, srcIp: Bytes, dstIp: Bytes, date: Bytes,
    sport: nat, dport: nat, rtpPort: nat,
    token: bv32, fromTag: bv32, toTag: bv32, nonce: bv32,
    millis: nat, timeOfDay: nat)

  const MAX_HEADER: nat := 1024
  const CR: Byte := 0x0D
  const EQ: Byte := 0x3D
  const CRLF: Bytes := [0x0D, 0x0A]
  const CRLF_CRLF: Bytes := [0x0D, 0x0A, 0x0D, 0x0A]

  /** `INVITE ` */
  const INVITE: Bytes := [0x49, 0x4E, 0x56, 0x49, 0x54, 0x45, 0x20]
  /** `REGISTER ` */
  const REGISTER: Bytes := [0x52, 0x45, 0x47, 0x49, 0x53, 0x54, 0x45, 0x52, 0x20]
  /** `MESSAGE ` */
  const MESSAGE: Bytes := [0x4D, 0x45, 0x53, 0x53, 0x41, 0x47, 0x45, 0x20]
  /** `OPTIONS ` */
  const OPTIONS: Bytes := [0x4F, 0x50, 0x54, 0x49, 0x4F, 0x4E, 0x53, 0x20]
  /** `SIP/2.0 ` */
  const SIP2: Bytes := [0x53, 0x49, 0x50, 0x2F, 0x32, 0x2E, 0x30, 0x20]
  /** `sip:` */
  const SIP_URI: Bytes := [0x73, 0x69, 0x70, 0x3A]
  /** ` SIP/2.0` */
  const VERSION: Bytes := [0x20, 0x53, 0x49, 0x50, 0x2F, 0x32, 0x2E, 0x30]
  /** `200 OK` */
  const OK: Bytes := [0x32, 0x30, 0x30, 0x20, 0x4F, 0x4B]
  /** `401 Unauthorized` */
  const UNAUTHORIZED: Bytes := [0x34, 0x30, 0x31, 0x20, 0x55, 0x6E, 0x61, 0x75, 0x74, 0x68, 0x6F, 0x72, 0x69, 0x7A,
      0x65, 0x64]
  /** `403 Forbidden` */
  const FORBIDDEN: Bytes := [0x34, 0x30, 0x33, 0x20, 0x46, 0x6F, 0x72, 0x62, 0x69, 0x64, 0x64, 0x65, 0x6E]
  /** `WWW-Authenticate: Digest realm="` */
  const REALM: Bytes := [0x57, 0x57, 0x57, 0x2D, 0x41, 0x75, 0x74, 0x68, 0x65, 0x6E, 0x74, 0x69, 0x63, 0x61, 0x74,
      0x65, 0x3A, 0x20, 0x44, 0x69, 0x67, 0x65, 0x73, 0x74, 0x20, 0x72, 0x65, 0x61, 0x6C, 0x6D, 0x3D, 0x22]
  /** `", nonce="` */
  const NONCE: Bytes := [0x22, 0x2C, 0x20, 0x6E, 0x6F, 0x6E, 0x63, 0x65, 0x3D, 0x22]
  /** `", algorithm=MD5` */
  const MD5: Bytes := [0x22, 0x2C, 0x20, 0x61, 0x6C, 0x67, 0x6F, 0x72, 0x69, 0x74, 0x68, 0x6D, 0x3D, 0x4D, 0x44, 0x35]
  /** `Via: SIP/2.0/UDP ` */
  const VIA: Bytes := [0x56, 0x69, 0x61, 0x3A, 0x20, 0x53, 0x49, 0x50, 0x2F, 0x32, 0x2E, 0x30, 0x2F, 0x55, 0x44, 0x50,
      0x20]
  /** `;branch=z9hG4bK-` */
  const BRANCH: Bytes := [0x3B, 0x62, 0x72, 0x61, 0x6E, 0x63, 0x68, 0x3D, 0x7A, 0x39, 0x68, 0x47, 0x34, 0x62, 0x4B,
      0x2D]
  /** `Max-Forwards: 70` */
  const MAX_FORWARDS: Bytes := [0x4D, 0x61, 0x78, 0x2D, 0x46, 0x6F, 0x72, 0x77, 0x61, 0x72, 0x64, 0x73, 0x3A, 0x20,
      0x37, 0x30]
  /** `From: <sip:` */
  const FROM: Bytes := [0x46, 0x72, 0x6F, 0x6D, 0x3A, 0x20, 0x3C, 0x73, 0x69, 0x70, 0x3A]
  /** `To: <sip:` */
  const TO: Bytes := [0x54, 0x6F, 0x3A, 0x20, 0x3C, 0x73, 0x69, 0x70, 0x3A]
  /** `>` */
  const CLOSE: Bytes := [0x3E]
  /** `;tag=` */
  const TAG: Bytes := [0x3B, 0x74, 0x61, 0x67, 0x3D]
  /** `Call-ID: ` */
  const CALL_ID: Bytes := [0x43, 0x61, 0x6C, 0x6C, 0x2D, 0x49, 0x44, 0x3A, 0x20]
  /** `CSeq: ` */
  const CSEQ: Bytes := [0x43, 0x53, 0x65, 0x71, 0x3A, 0x20]
  /** `Date: ` */
  const DATE: Bytes := [0x44, 0x61, 0x74, 0x65, 0x3A, 0x20]
  /** ` GMT` */
  const GMT: Bytes := [0x20, 0x47, 0x4D, 0x54]
  /** `Contact: <sip:` */
  const CONTACT: Bytes := [0x43, 0x6F, 0x6E, 0x74, 0x61, 0x63, 0x74, 0x3A, 0x20, 0x3C, 0x73, 0x69, 0x70, 0x3A]
  /** `User-Agent: Asterisk PBX 16.2.0` */
  const AGENT: Bytes := [0x55, 0x73, 0x65, 0x72, 0x2D, 0x41, 0x67, 0x65, 0x6E, 0x74, 0x3A, 0x20, 0x41, 0x73, 0x74,
      0x65, 0x72, 0x69, 0x73, 0x6B, 0x20, 0x50, 0x42, 0x58, 0x20, 0x31, 0x36, 0x2E, 0x32, 0x2E, 0x30]
  /** `Content-Type: application/sdp` */
  const CONTENT_TYPE: Bytes := [0x43, 0x6F, 0x6E, 0x74, 0x65, 0x6E, 0x74, 0x2D, 0x54, 0x79, 0x70, 0x65, 0x3A, 0x20,
      0x61, 0x70, 0x70, 0x6C, 0x69, 0x63, 0x61, 0x74, 0x69, 0x6F, 0x6E, 0x2F, 0x73, 0x64, 0x70]
  /** `Content-Length: ` */
  const CONTENT_LENGTH: Bytes := [0x43, 0x6F, 0x6E, 0x74, 0x65, 0x6E, 0x74, 0x2D, 0x4C, 0x65, 0x6E, 0x67, 0x74, 0x68,
      0x3A, 0x20]
  /** `v=0` */
  const V0: Bytes := [0x76, 0x3D, 0x30]
  /** `o=- ` */
  const ORIGIN: Bytes := [0x6F, 0x3D, 0x2D, 0x20]
  /** ` IN IP4 ` */
  const IN_IP4: Bytes := [0x20, 0x49, 0x4E, 0x20, 0x49, 0x50, 0x34, 0x20]
  /** `s=SIP Call` */
  const SESSION: Bytes := [0x73, 0x3D, 0x53, 0x49, 0x50, 0x20, 0x43, 0x61, 0x6C, 0x6C]
  /** `c=IN IP4 ` */
  const CONNECTION: Bytes := [0x63, 0x3D, 0x49, 0x4E, 0x20, 0x49, 0x50, 0x34, 0x20]
  /** `t=0 0` */
  const TIMING: Bytes := [0x74, 0x3D, 0x30, 0x20, 0x30]
  /** `m=audio ` */
  const AUDIO: Bytes := [0x6D, 0x3D, 0x61, 0x75, 0x64, 0x69, 0x6F, 0x20]
  /** ` RTP/AVP 0 8` */
  const AVP: Bytes := [0x20, 0x52, 0x54, 0x50, 0x2F, 0x41, 0x56, 0x50, 0x20, 0x30, 0x20, 0x38]
  /** `a=rtpmap:0 PCMU/8000` */
  const PCMU: Bytes := [0x61, 0x3D, 0x72, 0x74, 0x70, 0x6D, 0x61, 0x70, 0x3A, 0x30, 0x20, 0x50, 0x43, 0x4D, 0x55,
      0x2F, 0x38, 0x30, 0x30, 0x30]
  /** `a=rtpmap:8 PCMA/8000` */
  const PCMA: Bytes := [0x61, 0x3D, 0x72, 0x74, 0x70, 0x6D, 0x61, 0x70, 0x3A, 0x38, 0x20, 0x50, 0x43, 0x4D, 0x41,
      0x2F, 0x38, 0x30, 0x30, 0x30]
  /** `a=ptime:20` */
  const PTIME: Bytes := [0x61, 0x3D, 0x70, 0x74, 0x69, 0x6D, 0x65, 0x3A, 0x32, 0x30]
  /** `a=sendrecv` */
  const SENDRECV: Bytes := [0x61, 0x3D, 0x73, 0x65, 0x6E, 0x64, 0x72, 0x65, 0x63, 0x76]
  /** `a=fmtp:0 ` */
  const FMTP: Bytes := [0x61, 0x3D, 0x66, 0x6D, 0x74, 0x70, 0x3A, 0x30, 0x20]

  // ---- Writer --------------------------------------------------------------

  function HexDigit(v: bv32): Byte
    requires v < 16
  {
    if v < 10 then 0x30 + v as Byte else 0x61 + (v - 10) as Byte
  }

  /** `write_hex8`. */
  function Hex8(v: bv32): (s: Bytes)
    ensures |s| == 8
  {
    [ HexDigit((v >> 28) & 0xF), HexDigit((v >> 24) & 0xF), HexDigit((v >> 20) & 0xF), HexDigit((v >> 16) & 0xF),
      HexDigit((v >> 12) & 0xF), HexDigit((v >> 8) & 0xF), HexDigit((v >> 4) & 0xF), HexDigit(v & 0xF) ]
  }

  predicate IsResponse(kind: Kind) { kind.Response200? || kind.Response401? || kind.Response403? }

  function Target(f: Fields): Bytes {
    SIP_URI + Dec(f.dport) + [0x40] + f.domain + [0x3A] + Dec(f.dport) + VERSION
  }

  /** The request or status line, with the challenge line of a 401. */
  function FirstLines(kind: Kind, f: Fields): seq<Bytes> {
    match kind
    case Register => [REGISTER + SIP_URI + f.domain + VERSION]
    case Message => [MESSAGE + Target(f)]
    case Options => [OPTIONS + Target(f)]
    case Response200 => [SIP2 + OK]
    case Response401 => [SIP2 + UNAUTHORIZED, REALM + f.domain + NONCE + Hex8(f.nonce) + MD5]
    case Response403 => [SIP2 + FORBIDDEN]
  }

  function Method(kind: Kind): Bytes {
    match kind
    case Register | Response401 => REGISTER[..8]
    case Response200 | Options => OPTIONS[..7]
    case Response403 => INVITE[..6]
    case Message => MESSAGE[..7]
  }

  function DateLine(f: Fields): Bytes {
    DATE + f.date + [0x20] + DecPadded(f.timeOfDay / 3600000000, 2) + [0x3A]
    + DecPadded(f.timeOfDay / 60000000 % 60, 2) + [0x3A] + DecPadded(f.timeOfDay / 1000000 % 60, 2)
    + [0x2E] + DecPadded(f.timeOfDay % 1000000, 6) + GMT
  }

  function CommonLines(kind: Kind, f: Fields): seq<Bytes> {
    [ VIA + f.srcIp + [0x3A] + Dec(f.sport) + BRANCH + Hex8(f.token),
      MAX_FORWARDS,
      FROM + Dec(f.sport) + [0x40] + f.domain + CLOSE + TAG + Hex8(f.fromTag),
      TO + Dec(f.dport) + [0x40] + f.domain + CLOSE + (if IsResponse(kind) then TAG + Hex8(f.toTag) else []),
      CALL_ID + Hex8(f.token) + [0x40] + f.domain,
      CSEQ + Dec(f.millis % 1000 + 1) + [0x20] + Method(kind),
      DateLine(f),
      CONTACT + Dec(f.sport) + [0x40] + f.srcIp + [0x3A] + Dec(f.sport) + CLOSE,
      AGENT ]
  }

  function Join(lines: seq<Bytes>): Bytes {
    if lines == [] then [] else lines[0] + CRLF + Join(lines[1..])
  }

  function SdpLines(f: Fields): seq<Bytes> {
    [ V0,
      ORIGIN + Dec(f.millis) + [0x20] + Dec(f.millis) + IN_IP4 + f.srcIp,
      SESSION,
      CONNECTION + f.dstIp,
      TIMING,
      AUDIO + Dec(f.rtpPort) + AVP,
      PCMU, PCMA, PTIME, SENDRECV ]
  }

  function HeaderLines(kind: Kind, f: Fields, payloadLen: nat): seq<Bytes> {
    FirstLines(kind, f) + CommonLines(kind, f)
    + if payloadLen > 0
      then [CONTENT_TYPE, CONTENT_LENGTH + Dec(|Join(SdpLines(f)) + FMTP| + payloadLen)]
      else [CONTENT_LENGTH + Dec(0)]
  }

  /** `write_header`; the keepalive fast path writes the same text. */
  function Header(kind: Kind, f: Fields, payloadLen: nat): Bytes {
    Join(HeaderLines(kind, f, payloadLen)) + CRLF
    + if payloadLen > 0 then Join(SdpLines(f)) + FMTP else []
  }

  // ---- Recogniser ----------------------------------------------------------

  /** `find_crlf_crlf`. */
  function FindBlankLine(buf: Bytes): Option<nat> {
    if |buf| < 4 then None
    else
      match Find(buf, CRLF_CRLF, 0, |buf| - 3)
      case Some(p) => Some(p + 4)
      case None => None
  }

  predicate StartsLikeSip(buf: Bytes) {
    StartsWith(buf, INVITE) || StartsWith(buf, REGISTER) || StartsWith(buf, MESSAGE)
    || StartsWith(buf, OPTIONS) || StartsWith(buf, SIP2)
  }

  /** `check_header`. */
  function Check(buf: Bytes): Option<nat> {
    if |buf| < 16 || !StartsLikeSip(buf) then None
    else
      match FindBlankLine(buf)
      case None => None
      case Some(hl) =>
        match Find(buf, FMTP, hl, |buf| - 8)
        case Some(p) => Some(p + |FMTP|)
        case None => Some(hl)
  }

  // ---- RTP -----------------------------------------------------------------

  const RTP_HEADER: nat := 12

  /** `write_rtp_header`; the sequence number is the low half of the timestamp. */
  function RtpHeader(ts: bv32, ssrc: bv32): (h: Bytes)
    ensures |h| == RTP_HEADER
  {
    [0x80, 0x60] + BeBytes(ts)[2..] + BeBytes(ts) + BeBytes(ssrc)
  }

  /** `check_rtp_header`. */
  predicate CheckRtp(buf: Bytes) {
    |buf| >= RTP_HEADER && buf[0] & 0xC0 == 0x80 && buf[1] & 0x7F == 0x60
  }
}
