/** GUT packets that a recogniser takes for an envelope: when a client loses them, and when it does not. */
module Loss {
  import opened Bytes
  import opened Scan
  import opened Codec
  import opened CodecLaws
  import opened Base64
  import opened Claims
  import opened Path
  import Syslog
  import Sip

  /** Every GUT packet whose packet number looks like RTP loses its first twelve bytes. */
  lemma TakenForRtp(ks: Keystream, fill: Filler, wg: Bytes, isServer: bool, sport: bv16, dport: bv16)
    requires |wg| >= 16 && RtpWord(ks(47, Nonce(wg))[10])
    ensures var w := Wire(ks, fill, wg, isServer, sport, dport, Gut);
            |w| >= Sip.RTP_HEADER && Strip(w) == Payload(w[Sip.RTP_HEADER..], Some(Sip))
  {
    hide Syslog.Check, Sip.Check, LeBytes, Nonce, SealPorts, BallastCode, MaskAs, WordBytes, BallastFor, WgType;
    hide RtpWord;
    var w := Wire(ks, fill, wg, isServer, sport, dport, Gut);
    var ppn := LeBytes(ks(47, Nonce(wg))[10]);
    RtpBytes(ks(47, Nonce(wg))[10]);
    assert w[0] == ppn[0] && w[1] == ppn[1];
    NoText(w[0]);
    ClaimedFirstByte(w);
  }

  lemma NoText(b: Byte)
    requires b & 0xC0 == 0x80
    ensures b != 0x3C && b !in {0x49, 0x52, 0x4D, 0x4F, 0x53}
  {
  }

  // ---- Claimed packets shrink ------------------------------------------------------

  lemma {:induction false} DecodedShrinks(s: Bytes)
    requires |s| % 4 == 0
    ensures 4 * |Decoded(s)| <= 3 * |s|
  {
    hide DecodeGroup;
    if s != [] {
      DecodedShrinks(s[4..]);
    }
  }

  /** What the envelope stage leaves of claimed bytes: all but twelve for RTP, otherwise at most three quarters. */
  lemma ClaimedShrinks(w: Bytes)
    requires Claimed(w) && Strip(w).Payload?
    ensures var b := Strip(w).bytes;
            (Sip.CheckRtp(w) && b == w[Sip.RTP_HEADER..]) || 4 * |b| <= 3 * (|w| - 4)
  {
    hide Sip.CheckRtp, Decoded, Valid, Sip.StartsLikeSip, StartsWith, OccursAt;
    var r := if Syslog.Check(w).Some? then Syslog.Check(w) else Sip.Check(w);
    if r.Some? {
      assert r.value >= 4;
      var b64 := Behind(w, r.value);
      ValidLength(b64);
      DecodedShrinks(b64);
    }
  }

  lemma ValidLength(s: Bytes)
    ensures Valid(s) ==> |s| % 4 == 0
  {
  }

  /** Decapsulation removes at least the header. */
  lemma DecapShrinks(ks: Keystream, b: Bytes, p: Packet)
    requires Decap(ks, b, |b|, Gut) == Some(p)
    ensures |p.wg| + GUT_HEADER <= |b|
  {
    hide Nonce, WordBytes, BallastLen, OpenPorts, MaskedType, LeWord;
  }

  lemma GutLength(ks: Keystream, fill: Filler, wg: Bytes, isServer: bool, sport: bv16, dport: bv16)
    requires |wg| >= 16
    ensures |Wire(ks, fill, wg, isServer, sport, dport, Gut)| == GUT_HEADER + |wg| + GutBallast(|wg|)
    ensures Sip.CheckRtp(Wire(ks, fill, wg, isServer, sport, dport, Gut)) <==> RtpWord(ks(47, Nonce(wg))[10])
  {
    hide LeBytes, Nonce, SealPorts, BallastCode, MaskAs, WordBytes, WgType, RtpWord;
    var w := Wire(ks, fill, wg, isServer, sport, dport, Gut);
    var ppn := LeBytes(ks(47, Nonce(wg))[10]);
    RtpBytes(ks(47, Nonce(wg))[10]);
    assert w[0] == ppn[0] && w[1] == ppn[1];
  }

  /** Ballast of a GUT packet, which only depends on its length. */
  function GutBallast(n: nat): (pad: nat)
    ensures pad < 16
  {
    if n < 256 && (8 + GUT_HEADER + n) % 16 != 0 then 16 - (8 + GUT_HEADER + n) % 16 else 0
  }

  /**
   A client receives a GUT packet of at least 32 bytes if and only if its wire
   image does not look like an envelope, unless it looks like RTP and carries
   twelve or more bytes of ballast.
   */
  lemma ClientDeliversIff(ks: Keystream, fill: Filler, wg: Bytes, isServer: bool, sport: bv16, dport: bv16, env: Env)
    requires |wg| >= 32
    requires GutBallast(|wg|) < Sip.RTP_HEADER || !RtpWord(ks(47, Nonce(wg))[10])
    ensures ClientIngress(ks, Gut, Egress(ks, fill, wg, isServer, sport, dport, Gut, env))
            == Some(Packet(wg, sport, dport))
            <==> LooksRaw(ks, fill, wg, isServer, sport, dport, Gut)
  {
    hide Wire, Strip, Egress, Verify, Decap, LooksRaw, Nonce, RtpWord, Claimed, Sip.CheckRtp;
    if LooksRaw(ks, fill, wg, isServer, sport, dport, Gut) {
      ClientDelivers(ks, fill, wg, isServer, sport, dport, Gut, env);
    } else {
      var w := Wire(ks, fill, wg, isServer, sport, dport, Gut);
      GutIsRaw(ks, fill, wg, isServer, sport, dport, env);
      OnlyGutCollides(ks, fill, wg, isServer, sport, dport, Gut);
      GutLength(ks, fill, wg, isServer, sport, dport);
      if Strip(w).Payload? {
        ClaimedShrinks(w);
        var b := Strip(w).bytes;
        var p := Packet(wg, sport, dport);
        if Decap(ks, b, |b|, Gut) == Some(p) {
          DecapShrinks(ks, b, p);
        }
      }
    }
  }

  // ---- Witnesses ---------------------------------------------------------------

  /** Behind a constant key stream nothing else is authentic, so what RTP leaves over is dropped. */
  lemma LostPacket(ks: Keystream, fill: Filler, wg: Bytes, block: Words, env: Env)
    requires |wg| >= 32 && (forall c, n :: ks(c, n) == block) && RtpWord(block[10])
    requires XorByte(wg[2], WordBytes(block)[2]) != LeBytes(block[10])[0]
    ensures ClientIngress(ks, Gut, Egress(ks, fill, wg, false, 0, 0, Gut, env)) == None
  {
    hide Strip, LeBytes, LeWord, Nonce, SealPorts, BallastCode, BallastLen, WordBytes, BallastFor, WgType, RtpWord;
    hide XorByte, Decap;
    var w := Wire(ks, fill, wg, false, 0, 0, Gut);
    TakenForRtp(ks, fill, wg, false, 0, 0);
    var b := w[Sip.RTP_HEADER..];
    assert b[0] == MaskAs(WgType(wg[0]), wg, WordBytes(block))[2] == XorByte(wg[2], WordBytes(block)[2]);
    if |b| >= GUT_HEADER {
      LeBytesOfWord(b[..GUT_HEADER][0..4]);
      assert b[..GUT_HEADER][0..4][0] == b[0];
    }
    assert !Verify(ks, b, |b|, Gut);
  }

  /** There is a key stream under which a WireGuard packet in GUT mode never arrives. */
  lemma SomePacketIsLost(fill: Filler, env: Env)
    ensures exists ks: Keystream, wg: Bytes ::
              |wg| >= 32 && ClientIngress(ks, Gut, Egress(ks, fill, wg, false, 0, 0, Gut, env)) == None
  {
    hide ClientIngress, Egress, Nonce;
    var block: Words := [0, 0, 0, 0, 0, 0, 0, 0, 0, 0, 0x6080, 0, 0, 0, 0, 0];
    var ks: Keystream := (counter: bv32, nonce: bv32) => block;
    var wg := [4] + Zeros(31);
    RtpExample(block);
    LostPacket(ks, fill, wg, block, env);
  }

  lemma RtpExample(block: Words)
    requires block[0] == 0 && block[10] == 0x6080
    ensures RtpWord(block[10]) && XorByte(0, WordBytes(block)[2]) != LeBytes(block[10])[0]
  {
    assert WordBytes(block)[2] == LeBytes(block[0])[2];
  }

  // ---- Why the exception is needed ------------------------------------------------

  const TWELVE: Bytes := [0x04, 0x00, 0x80, 0x60, 0x00, 0x00, 0x00, 0x00, 0x00, 0x00, 0x00, 0x41]

  /** A packet of period twelve whose bytes 2..12 read as a GUT header with two bytes of ballast. */
  const PERIODIC: Bytes := TWELVE + TWELVE + TWELVE[..8]

  /** Key stream: the packet number 0x6080 with a zero mask, and ballast that continues the packet's period. */
  const MASK_BLOCK: Words := [0, 0, 0, 0, 0, 0, 0, 0, 0, 0, 0x6080, 0, 0, 0, 0, 0]
  const BALLAST_BLOCK: Words := [0x41000000, 0x60800004, 0, 0, 0, 0, 0, 0, 0, 0, 0, 0, 0, 0, 0, 0]

  function PeriodicStream(counter: bv32, nonce: bv32): Words {
    if counter == 69 then BALLAST_BLOCK else MASK_BLOCK
  }

  lemma ZeroKey(i: nat)
    requires i < 16
    ensures WordBytes(MASK_BLOCK)[i] == 0
  {
    ZeroWord();
    assert MASK_BLOCK[i / 4] == 0;
  }

  lemma ZeroMask(ty: Byte, wg: Bytes)
    requires ty == 4
    ensures MaskAs(ty, wg, WordBytes(MASK_BLOCK)) == wg
  {
    hide XorByte, WordBytes;
    var kb := WordBytes(MASK_BLOCK);
    var m := MaskAs(ty, wg, kb);
    forall i | 0 <= i < |wg| ensures m[i] == wg[i] {
      if i < 16 {
        ZeroKey(i);
      }
      XorZero(wg[i]);
    }
  }

  lemma ZeroWord()
    ensures LeBytes(0) == [0, 0, 0, 0]
  {
  }

  lemma BallastBytes()
    ensures WordBytes(BALLAST_BLOCK)[..12] == PERIODIC[20..]
    ensures WordBytes(BALLAST_BLOCK)[12..14] == [0, 0]
  {
    hide WordBytes;
    var b := WordBytes(BALLAST_BLOCK);
    assert LeBytes(0x41000000) == [0, 0, 0, 0x41] && LeBytes(0x60800004) == [0x04, 0x00, 0x80, 0x60];
    ZeroWord();
    forall i | 0 <= i < 14 ensures b[i] == LeBytes(BALLAST_BLOCK[i / 4])[i % 4] {
    }
    assert b[..12] == [0, 0, 0, 0x41] + [0x04, 0x00, 0x80, 0x60] + [0, 0, 0, 0];
  }

  lemma Codes()
    ensures BallastCode(14) == 0x4D && BallastLen(0x41) == 2
  {
    hide ToByte;
    assert Val(ToByte(13)) == 13;
    assert ToByte(13) == 13;
  }

  /** The wire image of that packet, and what RTP leaves of it. */
  lemma PeriodicWire(fill: Filler)
    ensures var w := Wire(PeriodicStream, fill, PERIODIC, false, 0, 0, Gut);
            && |w| == 56 && RtpWord(PeriodicStream(47, Nonce(PERIODIC))[10])
            && w[12..] == PERIODIC[2..] + PERIODIC[20..] + [0, 0]
  {
    hide WordBytes, MaskAs, Nonce, BallastCode, LeBytes, SealPorts;
    var w := Wire(PeriodicStream, fill, PERIODIC, false, 0, 0, Gut);
    var block := WordBytes(BALLAST_BLOCK);
    ZeroMask(WgType(PERIODIC[0]), PERIODIC);
    BallastBytes();
    var hd := GutHeader(0x6080, SealPorts(0, 0, 0), 14);
    assert w == hd + PERIODIC + block[..14];
    assert block[..14] == block[..12] + block[12..14];
    assert w[12..] == PERIODIC[2..] + block[..14];
  }

  /** What RTP leaves of the wire image reads as the header and body of the same packet. */
  lemma Shifted()
    ensures var b := PERIODIC[2..] + PERIODIC[20..] + [0, 0];
            && |b| == 44 && b[9] == 0x41 && b[10] == 0x04 && b[10..42] == PERIODIC
            && b[..GUT_HEADER][0..4] == [0x80, 0x60, 0x00, 0x00] && b[4..8] == [0, 0, 0, 0]
  {
    var b := PERIODIC[2..] + PERIODIC[20..] + [0, 0];
    var head := b[..GUT_HEADER];
    assert head[0] == PERIODIC[2] == 0x80 && head[1] == PERIODIC[3] == 0x60 && head[2] == PERIODIC[4]
        && head[3] == PERIODIC[5];
    assert b[4] == PERIODIC[6] && b[5] == PERIODIC[7] && b[6] == PERIODIC[8] && b[7] == PERIODIC[9];
    assert head[0..4] == [head[0], head[1], head[2], head[3]] && b[4..8] == [b[4], b[5], b[6], b[7]];
    forall i | 0 <= i < 32 ensures b[10 + i] == PERIODIC[i] {
    }
    assert b[10..42] == PERIODIC;
  }

  lemma PeriodicOpens()
    ensures var b := PERIODIC[2..] + PERIODIC[20..] + [0, 0];
            && Verify(PeriodicStream, b, |b|, Gut) && Decap(PeriodicStream, b, |b|, Gut) == Some(Packet(PERIODIC, 0, 0))
  {
    hide WordBytes, MaskAs, Nonce, BallastLen, LeWord, OpenPorts, MaskedType;
    Shifted();
    Codes();
    Fields();
    ZeroMask(4, PERIODIC);
    FirstType();
  }

  lemma Fields()
    ensures LeWord([0x80, 0x60, 0x00, 0x00]) == 0x6080 && OpenPorts(LeWord([0, 0, 0, 0]), 0) == (0, 0)
  {
  }

  lemma FirstType()
    ensures MaskedType(0x04, WordBytes(MASK_BLOCK)[0]) == 4
  {
    ZeroWord();
    assert WordBytes(MASK_BLOCK)[0] == LeBytes(MASK_BLOCK[0])[0];
  }

  /** With fourteen bytes of ballast a packet can be taken for RTP and still arrive unchanged. */
  lemma MistakenYetDelivered(fill: Filler, env: Env)
    ensures !LooksRaw(PeriodicStream, fill, PERIODIC, false, 0, 0, Gut) && |PERIODIC| == 32
    ensures ClientIngress(PeriodicStream, Gut, Egress(PeriodicStream, fill, PERIODIC, false, 0, 0, Gut, env))
            == Some(Packet(PERIODIC, 0, 0))
  {
    hide Wire, Egress, Verify, Decap, Strip, Nonce, SealPorts, RtpWord, PeriodicStream;
    PeriodicWire(fill);
    TakenForRtp(PeriodicStream, fill, PERIODIC, false, 0, 0);
    GutIsRaw(PeriodicStream, fill, PERIODIC, false, 0, 0, env);
    PeriodicOpens();
  }
}
