/**
 The datagram codec of the userspace proxy: `obfs_encap`, `obfs_verify` and
 `obfs_decap`.  The keystream generator is a parameter, so every statement
 holds for each generator; the ClientHello, AEAD and PRNG content of a QUIC
 long header is an arbitrary 1200-byte filler.
 */
module Codec {
  import opened Bytes

  datatype Mode = Quic | Gut | Syslog | Sip

  const GUT_HEADER: nat := 10
  const SHORT_HEADER: nat := 16
  const LONG_HEADER: nat := 1200

  /** Keystream block for (counter, nonce) under a fixed key and round count. */
  type Keystream = (bv32, bv32) -> Words

  type Filler = b: Bytes | |b| == LONG_HEADER witness seq(LONG_HEADER, _ => 0)

  function WgType(b: Byte): Byte { b & 0x1F }

  function HeaderLen(mode: Mode, ty: Byte, isServer: bool): nat {
    if mode != Quic then GUT_HEADER
    else if ty == 3 then LONG_HEADER
    else if isServer then SHORT_HEADER
    else if ty == 1 then LONG_HEADER
    else SHORT_HEADER
  }

  /** `wg_nonce32`: XOR of the four words in bytes 16..32. */
  function Nonce(wg: Bytes): bv32 {
    if |wg| < 32 then 0
    else LeWord(wg[16..20]) ^ LeWord(wg[20..24]) ^ LeWord(wg[24..28]) ^ LeWord(wg[28..32])
  }

  // ---- Ballast ---------------------------------------------------------

  /** Number of ballast bytes, from the packet length and byte 63 of block 69. */
  function BallastFor(mode: Mode, n: nat, b: Byte): (pad: nat)
    ensures pad <= 64
  {
    match mode
    case Gut =>
      if n < 256 && (8 + GUT_HEADER + n) % 16 != 0 then 16 - (8 + GUT_HEADER + n) % 16 else 0
    case Quic =>
      if n >= 220 then 0 else (b & 0x3F) as nat + 1
    case _ =>
      if n >= 220 then (if (b & 0x0F) as nat < 14 then (b & 0x0F) as nat else 14) + 1
      else (b & 0x1F) as nat + 1
  }

  /** The last header byte: flag 0x40 and the ballast length less one. */
  function BallastCode(pad: nat): Byte
    requires pad <= 64
  {
    if pad > 0 then 0x40 | (ToByte(pad - 1) & 0x3F) else 0
  }

  function BallastLen(code: Byte): (pad: nat)
    ensures pad <= 64
  {
    if code & 0x40 != 0 then (code & 0x3F) as nat + 1 else 0
  }

  lemma CodeBits(r: Byte)
    requires Val(r) < 64
    ensures (0x40 | (r & 0x3F)) & 0x40 != 0 && (0x40 | (r & 0x3F)) & 0x3F == r
  {
  }

  lemma BallastCodeRoundTrip(pad: nat)
    requires pad <= 64
    ensures BallastLen(BallastCode(pad)) == pad
  {
    if pad > 0 {
      CodeBits(ToByte(pad - 1));
    }
  }

  // ---- Masking ---------------------------------------------------------

  /** Start of the second masked region (the mac2 field), if the type and length have one. */
  function Mac2Offset(ty: Byte, n: nat): (off: Option<nat>)
    ensures off.Some? ==> 32 <= off.value && off.value + 16 <= n
  {
    if ty == 1 && n >= 148 then Some(132)
    else if ty == 2 && n >= 92 then Some(76)
    else None
  }

  /** Byte i of the mask: block bytes 0..16 over the head, 16..32 over mac2, zero elsewhere. */
  function MaskByte(ty: Byte, n: nat, kb: Bytes, i: nat): Byte
    requires |kb| == 64
  {
    if i < 16 then kb[i]
    else
      match Mac2Offset(ty, n)
      case Some(off) => if off <= i < off + 16 then kb[16 + i - off] else 0
      case None => 0
  }

  function MaskAs(ty: Byte, wg: Bytes, kb: Bytes): (m: Bytes)
    requires |kb| == 64
    ensures |m| == |wg|
    ensures forall i :: 0 <= i < |wg| ==> m[i] == XorByte(wg[i], MaskByte(ty, |wg|, kb, i))
  {
    seq(|wg|, i requires 0 <= i < |wg| => XorByte(wg[i], MaskByte(ty, |wg|, kb, i)))
  }

  lemma MaskTwice(ty: Byte, wg: Bytes, kb: Bytes)
    requires |kb| == 64
    ensures MaskAs(ty, MaskAs(ty, wg, kb), kb) == wg
  {
    hide XorByte;
    var m := MaskAs(ty, wg, kb);
    var u := MaskAs(ty, m, kb);
    forall i | 0 <= i < |wg| ensures u[i] == wg[i] {
      XorCancels(wg[i], MaskByte(ty, |wg|, kb, i));
    }
  }

  /** Masking leaves bytes 16..32 alone, so both ends derive the same nonce. */
  lemma MaskKeepsNonce(ty: Byte, wg: Bytes, kb: Bytes)
    requires |kb| == 64
    ensures Nonce(MaskAs(ty, wg, kb)) == Nonce(wg)
  {
    hide XorByte, LeWord;
    var m := MaskAs(ty, wg, kb);
    if |wg| >= 32 {
      forall i | 16 <= i < 32 ensures m[i] == wg[i] {
        assert MaskByte(ty, |wg|, kb, i) == 0;
        XorZero(wg[i]);
      }
      assert m[16..20] == wg[16..20] && m[20..24] == wg[20..24];
      assert m[24..28] == wg[24..28] && m[28..32] == wg[28..32];
    }
  }

  // ---- Ports -----------------------------------------------------------

  function PackPorts(sport: bv16, dport: bv16): bv32 {
    ((sport as bv32) << 16) | (dport as bv32)
  }

  function UnpackPorts(w: bv32): (bv16, bv16) {
    (((w >> 16) & 0xFFFF) as bv16, (w & 0xFFFF) as bv16)
  }

  /** The encrypted port pair carried in every header. */
  function SealPorts(sport: bv16, dport: bv16, k: bv32): bv32 {
    PackPorts(sport, dport) ^ k
  }

  function OpenPorts(enc: bv32, k: bv32): (bv16, bv16) {
    UnpackPorts(enc ^ k)
  }

  lemma WordCancels(w: bv32, k: bv32)
    ensures (w ^ k) ^ k == w
  {
  }

  lemma UnpackPacked(sport: bv16, dport: bv16)
    ensures UnpackPorts(PackPorts(sport, dport)) == (sport, dport)
  {
  }

  lemma OpenSealed(sport: bv16, dport: bv16, k: bv32)
    ensures OpenPorts(SealPorts(sport, dport, k), k) == (sport, dport)
  {
    hide PackPorts, UnpackPorts;
    WordCancels(PackPorts(sport, dport), k);
    UnpackPacked(sport, dport);
  }

  /** The packet type read back from a masked first byte. */
  function MaskedType(b: Byte, k: Byte): Byte {
    WgType(XorByte(b, k))
  }

  lemma MaskedTypeOf(b: Byte, k: Byte)
    ensures MaskedType(XorByte(b, k), k) == WgType(b)
  {
    XorCancels(b, k);
  }

  // ---- Headers ---------------------------------------------------------

  /** Layout: PPN(4) ports(4) 0 code. */
  function GutHeader(ppn: bv32, ports: bv32, pad: nat): (h: Bytes)
    requires pad <= 64
    ensures |h| == GUT_HEADER
  {
    LeBytes(ppn) + LeBytes(ports) + [0x00, BallastCode(pad)]
  }

  /** Layout: 0x40 DCID(4) 1 PPN(4) ports(4) 0 code. */
  function ShortHeader(dcid: bv32, ppn: bv32, ports: bv32, pad: nat): (h: Bytes)
    requires pad <= 64
    ensures |h| == SHORT_HEADER
  {
    [0x40] + LeBytes(dcid) + [0x01] + LeBytes(ppn) + LeBytes(ports) + [0x00, BallastCode(pad)]
  }

  /** Flags byte: Retry for a cookie reply, Initial otherwise, low nibble under header protection. */
  function LongFlags(ty: Byte, fill: Filler): Byte { Protected(BaseFlags(ty), fill[0]) }

  function BaseFlags(ty: Byte): Byte { if ty == 3 then 0xF3 else 0xC3 }

  /** Header protection of a first byte: only the low nibble changes. */
  function Protected(flags: Byte, mask: Byte): Byte { flags ^ (mask & 0x0F) }

  /** Layout: flags version(4) 8 DCID(8) 8 PPN(4) hash(4) 4 ports(4). */
  function FrontWith(flags: Byte, fixed: Words, ppn: bv32, ports: bv32, hash: Bytes): (h: Bytes)
    requires |hash| == 4
    ensures |h| == 28
  {
    [flags, 0x00, 0x00, 0x00, 0x01]
    + [0x08] + LeBytes(fixed[0]) + LeBytes(fixed[1])
    + [0x08] + LeBytes(ppn) + hash
    + [0x04] + LeBytes(ports)
  }

  function LongFront(ty: Byte, fixed: Words, ppn: bv32, ports: bv32, fill: Filler): (h: Bytes)
    ensures |h| == 28
  {
    FrontWith(LongFlags(ty, fill), fixed, ppn, ports, fill[19..23])
  }

  function LongHeader(ty: Byte, fixed: Words, ppn: bv32, ports: bv32, pad: nat, fill: Filler): (h: Bytes)
    requires pad <= 64
    ensures |h| == LONG_HEADER
  {
    LongFront(ty, fixed, ppn, ports, fill) + fill[28..1199] + [BallastCode(pad)]
  }

  function Header(mode: Mode, isServer: bool, ty: Byte, ks: Keystream, k47: Words, ports: bv32, pad: nat,
                  fill: Filler): (h: Bytes)
    requires pad <= 64
    ensures |h| == HeaderLen(mode, ty, isServer)
  {
    var n := HeaderLen(mode, ty, isServer);
    if n == GUT_HEADER then GutHeader(k47[10], ports, pad)
    else if n == SHORT_HEADER then ShortHeader(k47[9], k47[10], ports, pad)
    else LongHeader(ty, ks(99, 0), k47[10], ports, pad, fill)
  }

  // ---- The three operations --------------------------------------------

  /** Wire image of a packet: header, masked packet, ballast. */
  function Wire(ks: Keystream, fill: Filler, wg: Bytes, isServer: bool, sport: bv16, dport: bv16,
                mode: Mode): (w: Bytes)
    requires |wg| >= 16
  {
    var ty := WgType(wg[0]);
    var k47 := ks(47, Nonce(wg));
    var k69 := WordBytes(ks(69, Nonce(wg)));
    var pad := BallastFor(mode, |wg|, k69[63]);
    Header(mode, isServer, ty, ks, k47, SealPorts(sport, dport, k47[11]), pad, fill)
    + MaskAs(ty, wg, WordBytes(k47))
    + k69[..pad]
  }

  /** A header length of one of the three layouts. */
  predicate IsHeader(h: nat)
    ensures IsHeader(h) ==> GUT_HEADER <= h <= LONG_HEADER
  {
    h == GUT_HEADER || h == SHORT_HEADER || h == LONG_HEADER
  }

  /** The header class a receiver assigns, or none. */
  function DecapClass(mode: Mode, first: Byte): (h: Option<nat>)
    ensures h.Some? ==> IsHeader(h.value)
  {
    if mode != Quic then Some(GUT_HEADER)
    else if first & 0x80 == 0x80 then Some(LONG_HEADER)
    else if first & 0x40 == 0x40 then Some(SHORT_HEADER)
    else None
  }

  function PortsAt(h: nat): (p: nat)
    ensures IsHeader(h) ==> p + 4 <= h
  {
    if h == GUT_HEADER then 4 else if h == SHORT_HEADER then 10 else 24
  }

  datatype Packet = Packet(wg: Bytes, sport: bv16, dport: bv16)

  /** `obfs_decap` on the first n bytes of a buffer. */
  function Decap(ks: Keystream, buf: Bytes, n: nat, mode: Mode): Option<Packet>
    requires n <= |buf|
  {
    if n == 0 then None else
    match DecapClass(mode, buf[0])
    case None => None
    case Some(h) => DecapAt(ks, buf, n, h)
  }

  /** Behind a header of h bytes. */
  function DecapAt(ks: Keystream, buf: Bytes, n: nat, h: nat): Option<Packet>
    requires n <= |buf| && IsHeader(h)
  {
    if n < h + 16 then None else
    var ballast := BallastLen(buf[h - 1]);
    if ballast > n - h then None
    // `buf[wg_off..wg_off + 16]` is unmasked even when the ballast reaches into it
    else
      var body := buf[h..n - ballast];
      var k47 := ks(47, Nonce(body));
      var kb := WordBytes(k47);
      var ports := OpenPorts(LeWord(buf[PortsAt(h)..PortsAt(h) + 4]), k47[11]);
      Some(Packet(MaskAs(MaskedType(buf[h], kb[0]), body, kb), ports.0, ports.1))
  }

  /** The header class `obfs_verify` assigns: it also checks the DCID length byte. */
  function VerifyClass(mode: Mode, buf: Bytes): (h: Option<nat>)
    requires |buf| > 0
    ensures h.Some? ==> IsHeader(h.value)
  {
    if mode != Quic then Some(GUT_HEADER)
    else if buf[0] & 0xC0 == 0xC0 then
      if |buf| <= 5 || buf[5] != 0x08 then None else Some(LONG_HEADER)
    else if buf[0] & 0x40 == 0x40 then
      if |buf| <= 5 || buf[5] != 0x01 then None else Some(SHORT_HEADER)
    else None
  }

  /** `obfs_verify` on the first n bytes of a buffer. */
  predicate Verify(ks: Keystream, buf: Bytes, n: nat, mode: Mode)
    requires n <= |buf|
  {
    n != 0 &&
    match VerifyClass(mode, buf)
    case None => false
    case Some(h) => VerifyAt(ks, buf, n, mode, h)
  }

  /** Lengths first, then the fields derived from the packet's own nonce. */
  predicate VerifyAt(ks: Keystream, buf: Bytes, n: nat, mode: Mode, h: nat)
    requires n <= |buf| && IsHeader(h)
  {
    n >= h + 32 &&
    var ballast := BallastLen(buf[h - 1]);
    ballast <= n - h && n - h - ballast >= 32 &&
    Authentic(mode, buf[..h], ks(47, Nonce(buf[h..n - ballast])), ks(99, 0))
  }

  /** The authentication fields of a header. */
  predicate Authentic(mode: Mode, hd: Bytes, k47: Words, fixed: Words)
    requires IsHeader(|hd|)
  {
    if mode != Quic then LeWord(hd[0..4]) == k47[10]
    else if |hd| == SHORT_HEADER then LeWord(hd[1..5]) == k47[9] && LeWord(hd[6..10]) == k47[10]
    else |hd| == LONG_HEADER && LeWord(hd[6..10]) == fixed[0] && LeWord(hd[15..19]) == k47[10]
  }
}
