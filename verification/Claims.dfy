/** Which raw bytes the envelope recognisers claim, and when they claim a GUT wire image. */
module Claims {
  import opened Bytes
  import opened Scan
  import opened Codec
  import Syslog
  import Sip

  /** Some recogniser claims these bytes. */
  predicate Claimed(buf: Bytes) {
    Syslog.Check(buf).Some? || Sip.Check(buf).Some? || Sip.CheckRtp(buf)
  }

  /** Recognisers look at the first byte first. */
  lemma ClaimedFirstByte(buf: Bytes)
    requires Claimed(buf)
    ensures |buf| > 0
    ensures Syslog.Check(buf).Some? ==> buf[0] == 0x3C
    ensures Sip.Check(buf).Some? ==> buf[0] in {0x49, 0x52, 0x4D, 0x4F, 0x53}
  {
    hide Find;
    if Syslog.Check(buf).Some? {
      assert buf[0] == buf[0..7][0] == Syslog.PREFIX[0];
    }
    if Sip.Check(buf).Some? {
      FirstOf(buf, Sip.INVITE);
      FirstOf(buf, Sip.REGISTER);
      FirstOf(buf, Sip.MESSAGE);
      FirstOf(buf, Sip.OPTIONS);
      FirstOf(buf, Sip.SIP2);
    }
  }

  lemma FirstOf(buf: Bytes, pat: Bytes)
    requires pat != []
    ensures StartsWith(buf, pat) ==> buf != [] && buf[0] == pat[0]
  {
    if StartsWith(buf, pat) {
      assert buf[0] == buf[0..0 + |pat|][0];
    }
  }

  // ---- The two header words ----------------------------------------------------

  /** Packet number and sealed ports spell an eight-byte pattern. */
  predicate SpellEight(ppn: bv32, ports: bv32, pat: Bytes)
    requires |pat| == 8
  {
    ppn == LeWord(pat[..4]) && ports == LeWord(pat[4..])
  }

  /** They spell a seven-byte pattern; the last byte of the ports is free. */
  predicate SpellSeven(ppn: bv32, ports: bv32, pat: Bytes)
    requires |pat| == 7
  {
    ppn == LeWord(pat[..4]) && Low24(ports) == LeWord(pat[4..] + [0])
  }

  function Low24(w: bv32): bv32 { w & 0xFFFFFF }

  /** The packet number looks like the first two bytes of an RTP header. */
  predicate RtpWord(ppn: bv32) { ppn & 0x7FC0 == 0x6080 }

  predicate SipWords(ppn: bv32, ports: bv32) {
    SpellSeven(ppn, ports, Sip.INVITE) || SpellEight(ppn, ports, Sip.MESSAGE) || SpellEight(ppn, ports, Sip.OPTIONS)
    || SpellEight(ppn, ports, Sip.SIP2)
  }

  predicate SyslogWords(ppn: bv32, ports: bv32) { SpellSeven(ppn, ports, Syslog.PREFIX) }

  predicate HasBlankLine(w: Bytes) { exists j :: 0 <= j < |w| - 3 && OccursAt(w, Sip.CRLF_CRLF, j) }

  predicate HasMarker(w: Bytes) { exists j :: 28 <= j < 61 && OccursAt(w, Syslog.MARKER, j) }

  /** A GUT header of these words, in front of the rest of w, is taken for an envelope. */
  predicate Collides(ppn: bv32, ports: bv32, w: Bytes) {
    RtpWord(ppn) || (SipWords(ppn, ports) && HasBlankLine(w)) || (SyslogWords(ppn, ports) && HasMarker(w))
  }

  lemma EightBytes(ppn: bv32, ports: bv32, rest: Bytes, pat: Bytes)
    requires |pat| == 8
    ensures StartsWith(LeBytes(ppn) + LeBytes(ports) + rest, pat) <==> SpellEight(ppn, ports, pat)
  {
    hide LeBytes, LeWord;
    var w := LeBytes(ppn) + LeBytes(ports) + rest;
    LeBytesOfWord(pat[..4]);
    LeBytesOfWord(pat[4..]);
    LeWordOfBytes(ppn);
    LeWordOfBytes(ports);
    assert w[0..8] == LeBytes(ppn) + LeBytes(ports);
    assert (LeBytes(ppn) + LeBytes(ports))[..4] == LeBytes(ppn)
        && (LeBytes(ppn) + LeBytes(ports))[4..] == LeBytes(ports);
    assert pat == pat[..4] + pat[4..];
  }

  lemma LowBytes(w: bv32)
    ensures LeBytes(Low24(w)) == LeBytes(w)[..3] + [0]
  {
    var a, b := LeBytes(Low24(w)), LeBytes(w);
    assert a[0] == b[0] && a[1] == b[1] && a[2] == b[2] && a[3] == 0;
  }

  lemma ThreeBytes(ports: bv32, pat: Bytes)
    requires |pat| == 3
    ensures LeBytes(ports)[..3] == pat <==> Low24(ports) == LeWord(pat + [0])
  {
    hide LeBytes, LeWord, Low24;
    LowBytes(ports);
    LeBytesOfWord(pat + [0]);
    LeWordOfBytes(Low24(ports));
    assert (pat + [0])[..3] == pat && (LeBytes(ports)[..3] + [0])[..3] == LeBytes(ports)[..3];
  }

  lemma SevenBytes(ppn: bv32, ports: bv32, rest: Bytes, pat: Bytes)
    requires |pat| == 7
    ensures StartsWith(LeBytes(ppn) + LeBytes(ports) + rest, pat) <==> SpellSeven(ppn, ports, pat)
  {
    hide LeBytes, LeWord, Low24;
    var w := LeBytes(ppn) + LeBytes(ports) + rest;
    LeBytesOfWord(pat[..4]);
    LeWordOfBytes(ppn);
    ThreeBytes(ports, pat[4..]);
    var head := LeBytes(ppn) + LeBytes(ports)[..3];
    assert w[0..7] == head;
    assert head[..4] == LeBytes(ppn) && head[4..] == LeBytes(ports)[..3];
    assert pat == pat[..4] + pat[4..];
  }

  lemma RtpBytes(ppn: bv32)
    ensures LeBytes(ppn)[0] & 0xC0 == 0x80 && LeBytes(ppn)[1] & 0x7F == 0x60 <==> RtpWord(ppn)
  {
  }

  /** The ninth byte is zero, so the nine bytes of `REGISTER ` never match. */
  lemma NoRegister(ppn: bv32, ports: bv32, rest: Bytes)
    requires rest != [] && rest[0] == 0
    ensures !StartsWith(LeBytes(ppn) + LeBytes(ports) + rest, Sip.REGISTER)
  {
    hide LeBytes;
    var w := LeBytes(ppn) + LeBytes(ports) + rest;
    assert w[0..9][8] == w[8] == 0;
  }

  lemma SipClaims(w: Bytes)
    requires |w| >= 16
    ensures Sip.Check(w).Some? <==> Sip.StartsLikeSip(w) && HasBlankLine(w)
  {
    hide Sip.StartsLikeSip, OccursAt, Find;
  }

  lemma SyslogClaims(w: Bytes)
    requires |w| >= 26
    ensures Syslog.Check(w).Some? <==> StartsWith(w, Syslog.PREFIX) && HasMarker(w)
  {
    hide Find;
    var end := if |w| < 68 then |w| else 68;
    if HasMarker(w) {
      var j :| 28 <= j < 61 && OccursAt(w, Syslog.MARKER, j);
      assert j < end - 7;
    }
  }

  lemma WordsClaimed(ppn: bv32, ports: bv32, rest: Bytes)
    requires |rest| >= 18 && rest[0] == 0
    ensures var w := LeBytes(ppn) + LeBytes(ports) + rest; Claimed(w) <==> Collides(ppn, ports, w)
  {
    hide LeBytes, Syslog.Check, Sip.Check, HasBlankLine, HasMarker, SpellSeven, SpellEight, StartsWith, RtpWord;
    var w := LeBytes(ppn) + LeBytes(ports) + rest;
    SipClaims(w);
    SyslogClaims(w);
    RtpBytes(ppn);
    assert w[0] == LeBytes(ppn)[0] && w[1] == LeBytes(ppn)[1];
    SevenBytes(ppn, ports, rest, Sip.INVITE);
    SevenBytes(ppn, ports, rest, Syslog.PREFIX);
    NoRegister(ppn, ports, rest);
    EightBytes(ppn, ports, rest, Sip.MESSAGE);
    EightBytes(ppn, ports, rest, Sip.OPTIONS);
    EightBytes(ppn, ports, rest, Sip.SIP2);
  }

  /**
   A recogniser claims a GUT wire image if and only if its packet number and sealed ports spell one
   of the signatures.
   */
  lemma GutClaimedIff(ks: Keystream, fill: Filler, wg: Bytes, isServer: bool, sport: bv16, dport: bv16)
    requires |wg| >= 16
    ensures var k47 := ks(47, Nonce(wg));
            var w := Wire(ks, fill, wg, isServer, sport, dport, Gut);
            Claimed(w) <==> Collides(k47[10], SealPorts(sport, dport, k47[11]), w)
  {
    hide LeBytes, Nonce, SealPorts, BallastCode, MaskAs, WordBytes, BallastFor, WgType, Claimed, Collides;
    var k47 := ks(47, Nonce(wg));
    var block := WordBytes(ks(69, Nonce(wg)));
    var pad := BallastFor(Gut, |wg|, block[63]);
    var ports := SealPorts(sport, dport, k47[11]);
    var rest := [0x00, BallastCode(pad)] + MaskAs(WgType(wg[0]), wg, WordBytes(k47)) + block[..pad];
    assert Wire(ks, fill, wg, isServer, sport, dport, Gut) == LeBytes(k47[10]) + LeBytes(ports) + rest;
    WordsClaimed(k47[10], ports, rest);
  }
}
