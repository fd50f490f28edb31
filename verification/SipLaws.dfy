/** The SIP and RTP recognisers return what their writers wrote. */
module SipLaws {
  import opened Bytes
  import opened Scan
  import opened Sip

  /** No carriage return. */
  predicate OneLine(s: Bytes) { CR !in s }

  /** Every '=' is followed by a character other than 'f', so the body marker cannot start here. */
  predicate NoMarker(s: Bytes) {
    forall i :: 0 <= i < |s| && s[i] == EQ ==> i + 1 < |s| && s[i + 1] != 0x66
  }

  /** The text fields are single lines, and addresses hold no '='. */
  predicate CleanFields(f: Fields) {
    OneLine(f.domain) && OneLine(f.srcIp) && OneLine(f.dstIp) && OneLine(f.date)
    && EQ !in f.srcIp && EQ !in f.dstIp
  }

  // ---- Closure facts -------------------------------------------------------

  lemma NoMarkerConcat(a: Bytes, b: Bytes)
    requires NoMarker(a) && NoMarker(b)
    ensures NoMarker(a + b)
  {
  }

  lemma DecPlain(v: nat)
    ensures OneLine(Dec(v)) && NoMarker(Dec(v))
  {
    DecDigits(v);
  }

  lemma DecPaddedPlain(v: nat, w: nat)
    ensures OneLine(DecPadded(v, w))
  {
    DecPaddedDigits(v, w);
  }

  lemma HexDigitPlain(v: bv32)
    requires v < 16
    ensures HexDigit(v) != CR
  {
  }

  lemma Hex8Plain(v: bv32)
    ensures OneLine(Hex8(v))
  {
    hide HexDigit;
    HexDigitPlain((v >> 28) & 0xF);
    HexDigitPlain((v >> 24) & 0xF);
    HexDigitPlain((v >> 20) & 0xF);
    HexDigitPlain((v >> 16) & 0xF);
    HexDigitPlain((v >> 12) & 0xF);
    HexDigitPlain((v >> 8) & 0xF);
    HexDigitPlain((v >> 4) & 0xF);
    HexDigitPlain(v & 0xF);
  }

  lemma LiteralsPlain()
    ensures OneLine(REGISTER) && OneLine(MESSAGE) && OneLine(OPTIONS) && OneLine(INVITE) && OneLine(SIP2)
    ensures OneLine(SIP_URI) && OneLine(VERSION) && OneLine(OK) && OneLine(UNAUTHORIZED) && OneLine(FORBIDDEN)
    ensures OneLine(REALM) && OneLine(NONCE) && OneLine(MD5) && OneLine(VIA) && OneLine(BRANCH)
  {
  }

  lemma MoreLiteralsPlain()
    ensures OneLine(MAX_FORWARDS) && OneLine(FROM) && OneLine(TO) && OneLine(CLOSE) && OneLine(TAG) && OneLine(CALL_ID)
    ensures OneLine(CSEQ) && OneLine(DATE) && OneLine(GMT) && OneLine(CONTACT) && OneLine(AGENT)
    ensures OneLine(CONTENT_TYPE) && OneLine(CONTENT_LENGTH)
  {
  }

  predicate CleanLines(lines: seq<Bytes>) {
    forall i :: 0 <= i < |lines| ==> lines[i] != [] && OneLine(lines[i])
  }

  lemma FirstLinesClean(kind: Kind, f: Fields)
    requires CleanFields(f)
    ensures CleanLines(FirstLines(kind, f))
  {
    hide Dec, Hex8;
    LiteralsPlain();
    DecPlain(f.dport);
    Hex8Plain(f.nonce);
  }

  lemma DateLineClean(f: Fields)
    requires CleanFields(f)
    ensures DateLine(f) != [] && OneLine(DateLine(f))
  {
    hide DecPadded;
    MoreLiteralsPlain();
    DecPaddedPlain(f.timeOfDay / 3600000000, 2);
    DecPaddedPlain(f.timeOfDay / 60000000 % 60, 2);
    DecPaddedPlain(f.timeOfDay / 1000000 % 60, 2);
    DecPaddedPlain(f.timeOfDay % 1000000, 6);
  }

  lemma CommonLinesClean(kind: Kind, f: Fields)
    requires CleanFields(f)
    ensures CleanLines(CommonLines(kind, f))
  {
    hide Dec, Hex8, DateLine;
    LiteralsPlain();
    MoreLiteralsPlain();
    DecPlain(f.sport);
    DecPlain(f.dport);
    DecPlain(f.millis % 1000 + 1);
    Hex8Plain(f.token);
    Hex8Plain(f.fromTag);
    Hex8Plain(f.toTag);
    DateLineClean(f);
  }

  lemma HeaderLinesClean(kind: Kind, f: Fields, payloadLen: nat)
    requires CleanFields(f)
    ensures HeaderLines(kind, f, payloadLen) != [] && CleanLines(HeaderLines(kind, f, payloadLen))
  {
    hide Dec, FirstLines, CommonLines, SdpLines, Join;
    FirstLinesClean(kind, f);
    CommonLinesClean(kind, f);
    MoreLiteralsPlain();
    DecPlain(0);
    DecPlain(|Join(SdpLines(f)) + FMTP| + payloadLen);
  }

  // ---- The blank line ------------------------------------------------------

  /** In joined clean lines no two carriage returns are two places apart. */
  lemma {:induction false} NoBlankInside(lines: seq<Bytes>, j: nat)
    requires CleanLines(lines) && j + 2 < |Join(lines)|
    ensures !(Join(lines)[j] == CR && Join(lines)[j + 2] == CR)
  {
    var l, rest := lines[0], Join(lines[1..]);
    var s := Join(lines);
    assert s == l + CRLF + rest;
    if j < |l| {
      assert s[j] == l[j] && l[j] in l;
    } else if j == |l| {
      assert lines[1..] != [];
      var m := lines[1];
      assert s[j + 2] == rest[0] == m[0] && m[0] in m;
    } else if j > |l| + 1 {
      NoBlankInside(lines[1..], j - |l| - 2);
      assert s[j] == rest[j - |l| - 2] && s[j + 2] == rest[j - |l|];
    }
  }

  lemma {:induction false} JoinEnds(lines: seq<Bytes>)
    requires lines != []
    ensures |Join(lines)| >= 2 && Join(lines)[|Join(lines)| - 2..] == CRLF
  {
    if |lines| == 1 {
      assert Join(lines[1..]) == [];
    } else {
      JoinEnds(lines[1..]);
    }
  }

  lemma FirstBlankLine(lines: seq<Bytes>, rest: Bytes)
    requires CleanLines(lines) && lines != []
    ensures FindBlankLine(Join(lines) + CRLF + rest) == Some(|Join(lines)| + 2)
  {
    hide Join, Find;
    var head := Join(lines);
    var buf := head + CRLF + rest;
    JoinEnds(lines);
    var p := |head| - 2;
    assert buf[p..p + 4] == head[p..] + CRLF == CRLF_CRLF;
    forall j | 0 <= j < p ensures !OccursAt(buf, CRLF_CRLF, j) {
      NoBlankInside(lines, j);
      assert buf[j] == head[j] && buf[j + 2] == head[j + 2];
      var w := buf[j..j + 4];
      assert w[0] == buf[j] && w[2] == buf[j + 2];
    }
    FindIs(buf, CRLF_CRLF, 0, |buf| - 3, p);
  }

  // ---- The body marker -----------------------------------------------------

  predicate MarkerFreeLines(lines: seq<Bytes>) {
    forall i :: 0 <= i < |lines| ==> NoMarker(lines[i])
  }

  lemma {:induction false} JoinNoMarker(lines: seq<Bytes>)
    requires MarkerFreeLines(lines)
    ensures NoMarker(Join(lines))
  {
    if lines != [] {
      JoinNoMarker(lines[1..]);
      NoMarkerConcat(lines[0], CRLF);
      NoMarkerConcat(lines[0] + CRLF, Join(lines[1..]));
    }
  }

  lemma SdpLiterals()
    ensures NoMarker(V0) && NoMarker(ORIGIN) && NoMarker(IN_IP4) && NoMarker(SESSION) && NoMarker(CONNECTION)
    ensures NoMarker(TIMING) && NoMarker(AUDIO) && NoMarker(AVP) && NoMarker(PCMU) && NoMarker(PCMA)
    ensures NoMarker(PTIME) && NoMarker(SENDRECV) && NoMarker([0x20])
  {
  }

  lemma SdpNoMarker(f: Fields)
    requires CleanFields(f)
    ensures MarkerFreeLines(SdpLines(f))
  {
    hide Dec;
    SdpLiterals();
    DecPlain(f.millis);
    DecPlain(f.rtpPort);
    assert NoMarker(f.srcIp) && NoMarker(f.dstIp);
    var m := Dec(f.millis);
    NoMarkerConcat(ORIGIN, m);
    NoMarkerConcat(ORIGIN + m, [0x20]);
    NoMarkerConcat(ORIGIN + m + [0x20], m);
    NoMarkerConcat(ORIGIN + m + [0x20] + m, IN_IP4);
    NoMarkerConcat(ORIGIN + m + [0x20] + m + IN_IP4, f.srcIp);
    NoMarkerConcat(CONNECTION, f.dstIp);
    NoMarkerConcat(AUDIO, Dec(f.rtpPort));
    NoMarkerConcat(AUDIO + Dec(f.rtpPort), AVP);
  }

  /** The first marker behind position h is the one written after the marker-free text s. */
  lemma FirstMarker(head: Bytes, s: Bytes, payload: Bytes)
    requires NoMarker(s)
    ensures Find(head + s + FMTP + payload, FMTP, |head|, |head + s + FMTP + payload| - 8) == Some(|head| + |s|)
  {
    hide Find;
    var buf := head + s + FMTP + payload;
    var p := |head| + |s|;
    assert buf[p..p + 9] == FMTP;
    forall j | |head| <= j < p ensures !OccursAt(buf, FMTP, j) {
      assert forall i :: 0 <= i < |s| ==> buf[|head| + i] == s[i];
      if j + 9 <= |buf| {
        var w := buf[j..j + 9];
        assert w[1] == buf[j + 1] && w[2] == buf[j + 2];
        if j + 1 < p {
          assert buf[j + 1] == s[j + 1 - |head|];
        }
      }
    }
    FindIs(buf, FMTP, |head|, |buf| - 8, p);
  }

  // ---- Recognisers invert writers --------------------------------------------

  lemma HeaderStarts(kind: Kind, f: Fields, payloadLen: nat, payload: Bytes)
    ensures var buf := Header(kind, f, payloadLen) + payload;
            |buf| >= 16 && StartsLikeSip(buf) && (buf[0] == 0x52 || buf[0] == 0x4D || buf[0] == 0x4F || buf[0] == 0x53)
  {
    hide Dec, Hex8, CommonLines, SdpLines, Target;
    var lines := HeaderLines(kind, f, payloadLen);
    var buf := Header(kind, f, payloadLen) + payload;
    var l := FirstLines(kind, f)[0];
    var tail := Join(lines[1..]);
    assert Join(lines) == l + CRLF + tail;
    var pat := match kind { case Register => REGISTER case Message => MESSAGE case Options => OPTIONS case _ => SIP2 };
    assert l[..|pat|] == pat;
    assert buf[0..|pat|] == pat;
    assert buf[0] == pat[0];
    LineCount(kind, f, payloadLen);
  }

  /** At least nine more lines follow the first, so the text is longer than 16 bytes. */
  lemma LineCount(kind: Kind, f: Fields, payloadLen: nat)
    ensures |Join(HeaderLines(kind, f, payloadLen))| >= 16
  {
    hide Dec, Hex8, CommonLines, SdpLines, FirstLines;
    assert |CommonLines(kind, f)| == 9 by { CommonCount(kind, f); }
    JoinLength(HeaderLines(kind, f, payloadLen));
  }

  lemma CommonCount(kind: Kind, f: Fields)
    ensures |CommonLines(kind, f)| == 9
  {
    hide Dec, Hex8, DateLine;
  }

  lemma {:induction false} JoinLength(lines: seq<Bytes>)
    ensures |Join(lines)| >= 2 * |lines|
  {
    if lines != [] {
      JoinLength(lines[1..]);
    }
  }

  /** The SIP recogniser returns exactly the header length, whatever non-empty body follows. */
  lemma CheckInvertsHeader(kind: Kind, f: Fields, payloadLen: nat, payload: Bytes)
    requires CleanFields(f)
    requires payloadLen > 0
    ensures Check(Header(kind, f, payloadLen) + payload) == Some(|Header(kind, f, payloadLen)|)
  {
    hide Join, HeaderLines, SdpLines, StartsLikeSip, FindBlankLine, Find;
    HeaderStarts(kind, f, payloadLen, payload);
    HeaderLinesClean(kind, f, payloadLen);
    SdpNoMarker(f);
    JoinNoMarker(SdpLines(f));
    var lines := Join(HeaderLines(kind, f, payloadLen));
    var sdp := Join(SdpLines(f));
    var buf := Header(kind, f, payloadLen) + payload;
    assert buf == lines + CRLF + (sdp + FMTP + payload);
    FirstBlankLine(HeaderLines(kind, f, payloadLen), sdp + FMTP + payload);
    assert buf == (lines + CRLF) + sdp + FMTP + payload;
    FirstMarker(lines + CRLF, sdp, payload);
  }

  /** A header without body is recognised in full when nothing follows it. */
  lemma CheckInvertsBareHeader(kind: Kind, f: Fields)
    requires CleanFields(f)
    ensures Check(Header(kind, f, 0)) == Some(|Header(kind, f, 0)|)
  {
    hide Join, HeaderLines, StartsLikeSip, FindBlankLine;
    var buf := Header(kind, f, 0);
    HeaderStarts(kind, f, 0, []);
    assert buf + [] == buf;
    HeaderLinesClean(kind, f, 0);
    var lines := Join(HeaderLines(kind, f, 0));
    assert buf == lines + CRLF + [];
    FirstBlankLine(HeaderLines(kind, f, 0), []);
  }

  lemma CheckRtpInvertsHeader(ts: bv32, ssrc: bv32, payload: Bytes)
    ensures CheckRtp(RtpHeader(ts, ssrc) + payload)
  {
    hide BeBytes;
    var buf := RtpHeader(ts, ssrc) + payload;
    assert buf[0] == 0x80 && buf[1] == 0x60;
  }
}
