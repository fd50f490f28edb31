/** What each envelope says, in literal text. */
module EnvelopeText {
  import opened Bytes
  import opened Scan
  import opened Codec
  import opened Base64
  import opened Path
  import Sip
  import SipLaws
  import SipSize
  import Syslog
  import Calendar

  /** b holds the characters of s. */
  ghost predicate Spells(b: Bytes, s: string) {
    |b| == |s| && forall i :: 0 <= i < |s| ==> b[i] as int == s[i] as int
  }

  /** d starts with the text s. */
  ghost predicate Says(d: Bytes, s: string) {
    |s| <= |d| && Spells(d[..|s|], s)
  }

  lemma SpellsBoth(a: Bytes, b: Bytes, s: string, t: string)
    requires Spells(a, s) && Spells(b, t)
    ensures Spells(a + b, s + t)
  {
  }

  lemma SaysPrefix(d: Bytes, a: Bytes, s: string)
    requires StartsWith(d, a) && Spells(a, s)
    ensures Says(d, s)
  {
  }

  // ---- SIP -----------------------------------------------------------------

  lemma MethodsSpelled()
    ensures Spells(Sip.REGISTER, "REGISTER ") && Spells(Sip.MESSAGE, "MESSAGE ")
    ensures Spells(Sip.OPTIONS, "OPTIONS ") && Spells(Sip.SIP_URI, "sip:")
  {
  }

  lemma StatusSpelled()
    ensures Spells(Sip.SIP2, "SIP/2.0 ") && Spells(Sip.OK, "200 OK")
  {
  }

  lemma UnauthorizedHalves()
    ensures Spells(Sip.UNAUTHORIZED[..8], "401 Unau") && Spells(Sip.UNAUTHORIZED[8..], "thorized")
  {
  }

  lemma UnauthorizedSpelled()
    ensures Spells(Sip.UNAUTHORIZED, "401 Unauthorized")
  {
    hide Spells;
    UnauthorizedHalves();
    var u := Sip.UNAUTHORIZED;
    SpellsBoth(u[..8], u[8..], "401 Unau", "thorized");
    assert u == u[..8] + u[8..] && "401 Unau" + "thorized" == "401 Unauthorized";
  }

  /** The text a header of each kind starts with. */
  lemma FirstWords(kind: Sip.Kind, f: Sip.Fields)
    ensures var l := Sip.FirstLines(kind, f)[0];
            match kind
            case Register => StartsWith(l, Sip.REGISTER + Sip.SIP_URI)
            case Message => StartsWith(l, Sip.MESSAGE + Sip.SIP_URI)
            case Options => StartsWith(l, Sip.OPTIONS + Sip.SIP_URI)
            case Response200 => StartsWith(l, Sip.SIP2 + Sip.OK)
            case Response401 => StartsWith(l, Sip.SIP2 + Sip.UNAUTHORIZED)
            case Response403 => true
  {
    hide Dec, Sip.Hex8;
    var l := Sip.FirstLines(kind, f)[0];
    match kind
    case Register => assert l[..13] == Sip.REGISTER + Sip.SIP_URI;
    case Message => assert l[..12] == Sip.MESSAGE + Sip.SIP_URI;
    case Options => assert l[..12] == Sip.OPTIONS + Sip.SIP_URI;
    case _ =>
  }

  /** A header starts with its first line. */
  lemma HeaderFirstLine(kind: Sip.Kind, f: Sip.Fields, n: nat, body: Bytes)
    ensures StartsWith(Sip.Header(kind, f, n) + body, Sip.FirstLines(kind, f)[0] + Sip.CRLF)
  {
    hide Dec, Sip.Hex8, Sip.CommonLines, Sip.SdpLines, Sip.Target;
    var lines, l := Sip.HeaderLines(kind, f, n), Sip.FirstLines(kind, f)[0];
    assert lines[0] == l;
    assert Sip.Join(lines) == l + Sip.CRLF + Sip.Join(lines[1..]);
  }

  lemma PrefixOfPrefix(d: Bytes, l: Bytes, a: Bytes)
    requires StartsWith(d, l) && StartsWith(l, a)
    ensures StartsWith(d, a)
  {
    SliceOfPrefix(d, |l|, 0, |a|);
  }

  lemma HeaderSays(kind: Sip.Kind, f: Sip.Fields, n: nat, body: Bytes, a: Bytes, b: Bytes, s: string, t: string)
    requires StartsWith(Sip.FirstLines(kind, f)[0], a + b) && Spells(a, s) && Spells(b, t)
    ensures Says(Sip.Header(kind, f, n) + body, s + t)
  {
    hide Sip.Header, Sip.Target, Sip.Hex8, Spells, Says;
    var d, l := Sip.Header(kind, f, n) + body, Sip.FirstLines(kind, f)[0];
    HeaderFirstLine(kind, f, n, body);
    assert (l + Sip.CRLF)[..|l|] == l;
    PrefixOfPrefix(d, l + Sip.CRLF, l);
    PrefixOfPrefix(d, l, a + b);
    SpellsBoth(a, b, s, t);
    SaysPrefix(d, a + b, s + t);
  }

  lemma RequestSays(kind: Sip.Kind, f: Sip.Fields, n: nat, body: Bytes)
    ensures var d := Sip.Header(kind, f, n) + body;
            match kind
            case Register => Says(d, "REGISTER sip:")
            case Message => Says(d, "MESSAGE sip:")
            case Options => Says(d, "OPTIONS sip:")
            case _ => true
  {
    hide Sip.Header, Spells, Says;
    FirstWords(kind, f);
    MethodsSpelled();
    assert "REGISTER " + "sip:" == "REGISTER sip:" && "MESSAGE " + "sip:" == "MESSAGE sip:";
    assert "OPTIONS " + "sip:" == "OPTIONS sip:";
    match kind
    case Register => HeaderSays(kind, f, n, body, Sip.REGISTER, Sip.SIP_URI, "REGISTER ", "sip:");
    case Message => HeaderSays(kind, f, n, body, Sip.MESSAGE, Sip.SIP_URI, "MESSAGE ", "sip:");
    case Options => HeaderSays(kind, f, n, body, Sip.OPTIONS, Sip.SIP_URI, "OPTIONS ", "sip:");
    case _ =>
  }

  lemma OkSays(f: Sip.Fields, n: nat, body: Bytes)
    ensures Says(Sip.Header(Sip.Response200, f, n) + body, "SIP/2.0 200 OK")
  {
    hide Sip.Header, Sip.FirstLines, StartsWith, Spells, Says;
    FirstWords(Sip.Response200, f);
    StatusSpelled();
    HeaderSays(Sip.Response200, f, n, body, Sip.SIP2, Sip.OK, "SIP/2.0 ", "200 OK");
    assert "SIP/2.0 " + "200 OK" == "SIP/2.0 200 OK";
  }

  lemma UnauthorizedSays(f: Sip.Fields, n: nat, body: Bytes)
    ensures Says(Sip.Header(Sip.Response401, f, n) + body, "SIP/2.0 " + "401 Unauthorized")
  {
    hide Sip.Header, Sip.FirstLines, StartsWith, Spells, Says;
    FirstWords(Sip.Response401, f);
    StatusSpelled();
    UnauthorizedSpelled();
    HeaderSays(Sip.Response401, f, n, body, Sip.SIP2, Sip.UNAUTHORIZED, "SIP/2.0 ", "401 Unauthorized");
  }

  /** The datagram sent in SIP mode, by the first byte and the length of the packet. */
  lemma SipDatagramSays(env: Env, wg: Bytes, w: Bytes, dcid: bv32)
    requires |wg| > 0
    ensures var d := Envelope(Mode.Sip, env, wg, w, dcid);
            if wg[0] == 1 then Says(d, "REGISTER sip:")
            else if wg[0] == 2 then Says(d, "SIP/2.0 200 OK")
            else if wg[0] == 3 then Says(d, "SIP/2.0 " + "401 Unauthorized")
            else if wg[0] == 4 && |wg| == 32 then Says(d, "OPTIONS sip:")
            else if wg[0] == 4 && |wg| > 32 then RtpOver(d, Nonce(w), dcid, w)
            else Says(d, "MESSAGE sip:")
  {
    hide Sip.Header, Says, Encoded, Nonce, RtpOver;
    if UsesRtp(wg) {
      RtpWritten(Nonce(w), dcid, w);
    } else {
      var kind := SipKindOf(wg);
      var body := if kind.Options? then [] else Encoded(w);
      RequestSays(kind, env.sip, |body|, body);
      OkSays(env.sip, |body|, body);
      UnauthorizedSays(env.sip, |body|, body);
    }
  }

  /** RTP version 2 with payload type 96: sequence number and timestamp from ts, the source, then w. */
  ghost predicate RtpOver(d: Bytes, ts: bv32, ssrc: bv32, w: Bytes) {
    var t, s := LeBytes(ts), LeBytes(ssrc);
    d == [0x80, 0x60] + [t[1], t[0]] + [t[3], t[2], t[1], t[0]] + [s[3], s[2], s[1], s[0]] + w
  }

  lemma RtpWritten(ts: bv32, ssrc: bv32, w: Bytes)
    ensures RtpOver(Sip.RtpHeader(ts, ssrc) + w, ts, ssrc, w)
  {
    hide BeBytes, LeBytes;
    BigEndian(ts);
    BigEndian(ssrc);
  }

  /** Big-endian bytes are the little-endian ones in reverse. */
  lemma BigEndian(v: bv32)
    ensures var l := LeBytes(v); BeBytes(v) == [l[3], l[2], l[1], l[0]]
  {
  }

  // ---- Numbers in text -----------------------------------------------------

  /** The number a string of decimal digits stands for. */
  function Number(s: Bytes): int {
    if s == [] then 0 else 10 * Number(s[..|s| - 1]) + s[|s| - 1] as int - 0x30
  }

  lemma DigitValue(v: nat)
    requires v < 10
    ensures Digit(v) as int == 0x30 + v
  {
    var b := v as Byte;
    assert b < 10;
    assert (0x30 + b) as int == 0x30 + b as int;
  }

  /** Decimal text says the number, in digits without a leading zero. */
  lemma {:induction false} DecMeans(v: nat)
    ensures Number(Dec(v)) == v && (v > 0 ==> Dec(v)[0] != 0x30)
  {
    hide Digit;
    if v < 10 {
      DigitValue(v);
      var s := Dec(v);
      assert s[..0] == [] && Number([]) == 0;
    } else {
      DecMeans(v / 10);
      DigitValue(v % 10);
      var s := Dec(v);
      assert s[..|s| - 1] == Dec(v / 10) && s[0] == Dec(v / 10)[0];
    }
  }

  lemma {:induction false} NumberOfPadded(n: nat, s: Bytes)
    ensures Number(seq(n, _ => 0x30) + s) == Number(s)
    decreases n + |s|
  {
    var t := seq(n, _ => 0x30) + s;
    if s != [] {
      NumberOfPadded(n, s[..|s| - 1]);
      assert t[..|t| - 1] == seq(n, _ => 0x30) + s[..|s| - 1];
    } else if n > 0 {
      NumberOfPadded(n - 1, []);
      assert t[..|t| - 1] == seq(n - 1, _ => 0x30) + [];
    }
  }

  /** Padding keeps the number and reaches the width. */
  lemma PaddedMeans(v: nat, w: nat)
    ensures Number(DecPadded(v, w)) == v && |DecPadded(v, w)| >= w
    ensures |DecPadded(v, w)| > w ==> DecPadded(v, w) == Dec(v)
  {
    hide Dec;
    DecMeans(v);
    NumberOfPadded(if |Dec(v)| < w then w - |Dec(v)| else 0, Dec(v));
    if |Dec(v)| >= w { assert DecPadded(v, w) == Dec(v); }
  }

  // ---- SIP bodies ----------------------------------------------------------

  lemma {:induction false} JoinLast(lines: seq<Bytes>)
    requires lines != []
    ensures var t := lines[|lines| - 1] + Sip.CRLF;
            |t| <= |Sip.Join(lines)| && Sip.Join(lines)[|Sip.Join(lines)| - |t|..] == t
  {
    var j, t := Sip.Join(lines), lines[|lines| - 1] + Sip.CRLF;
    if |lines| == 1 {
      assert Sip.Join(lines[1..]) == [];
    } else {
      JoinLast(lines[1..]);
      var rest := Sip.Join(lines[1..]);
      assert j == (lines[0] + Sip.CRLF) + rest;
      assert j[|j| - |t|..] == rest[|rest| - |t|..];
    }
  }

  /** Right before the blank line stands the number of bytes behind it. */
  ghost predicate LengthStated(d: Bytes) {
    match Sip.FindBlankLine(d)
    case None => false
    case Some(p) =>
      p <= |d| && var t := Sip.CONTENT_LENGTH + Dec(|d| - p) + Sip.CRLF_CRLF; |t| <= p && d[p - |t|..p] == t
  }

  lemma ContentLengthIsRight(kind: Sip.Kind, f: Sip.Fields, body: Bytes)
    requires SipLaws.CleanFields(f)
    ensures LengthStated(Sip.Header(kind, f, |body|) + body)
  {
    hide Dec, Sip.HeaderLines, Sip.SdpLines, Sip.Join, Sip.FindBlankLine, LengthStated;
    var lines := Sip.HeaderLines(kind, f, |body|);
    var text := if |body| > 0 then Sip.Join(Sip.SdpLines(f)) + Sip.FMTP else [];
    LastHeaderLine(kind, f, |body|);
    SipLaws.HeaderLinesClean(kind, f, |body|);
    StatedBy(lines, text + body);
    ConcatAssoc(Sip.Join(lines) + Sip.CRLF, text, body);
  }

  lemma StatedBy(lines: seq<Bytes>, rest: Bytes)
    requires lines != [] && SipLaws.CleanLines(lines) && lines[|lines| - 1] == Sip.CONTENT_LENGTH + Dec(|rest|)
    ensures LengthStated(Sip.Join(lines) + Sip.CRLF + rest)
  {
    hide Dec, Sip.Join, Sip.FindBlankLine;
    SipLaws.FirstBlankLine(lines, rest);
    JoinLast(lines);
    LastLine(Sip.Join(lines), lines[|lines| - 1], rest);
  }

  lemma LastHeaderLine(kind: Sip.Kind, f: Sip.Fields, n: nat)
    ensures var lines := Sip.HeaderLines(kind, f, n);
            && lines != []
            && lines[|lines| - 1]
               == Sip.CONTENT_LENGTH + Dec(if n > 0 then |Sip.Join(Sip.SdpLines(f)) + Sip.FMTP| + n else 0)
  {
    hide Dec, Sip.FirstLines, Sip.CommonLines, Sip.SdpLines, Sip.Join;
  }

  lemma LastLine(head: Bytes, last: Bytes, rest: Bytes)
    requires var t := last + Sip.CRLF; |t| <= |head| && head[|head| - |t|..] == t
    ensures var d, p, t := head + Sip.CRLF + rest, |head| + 2, last + Sip.CRLF_CRLF; |t| <= p && d[p - |t|..p] == t
  {
    var d, p, t := head + Sip.CRLF + rest, |head| + 2, last + Sip.CRLF_CRLF;
    var u := last + Sip.CRLF;
    assert d[p - |t|..p] == head[|head| - |u|..] + Sip.CRLF;
    assert t == u + Sip.CRLF;
  }

  /** So a SIP datagram states its own length, whatever the packet. */
  lemma SipLengthIsRight(env: Env, wg: Bytes, w: Bytes, dcid: bv32)
    requires |wg| > 0 && !(wg[0] == 4 && |wg| > 32) && SipLaws.CleanFields(env.sip)
    ensures LengthStated(Envelope(Mode.Sip, env, wg, w, dcid))
  {
    hide Sip.Header, Encoded, LengthStated, SipLaws.CleanFields;
    ContentLengthIsRight(SipKindOf(wg), env.sip, if SipKindOf(wg).Options? then [] else Encoded(w));
  }

  /** The method named in the CSeq line; for a request it is that of the request line. */
  lemma SequenceMethod(kind: Sip.Kind, f: Sip.Fields)
    ensures !Sip.IsResponse(kind) ==> StartsWith(Sip.FirstLines(kind, f)[0], Sip.Method(kind) + [0x20])
    ensures Sip.IsResponse(kind) ==> StartsWith(Sip.FirstLines(kind, f)[0], Sip.SIP2)
    ensures kind.Response200? ==> Sip.Method(kind) == Sip.Method(Sip.Options)
    ensures kind.Response401? ==> Sip.Method(kind) == Sip.Method(Sip.Register)
  {
    hide Dec, Sip.Hex8;
    var l := Sip.FirstLines(kind, f)[0];
    match kind
    case Register => assert l[..9] == Sip.REGISTER == Sip.REGISTER[..8] + [0x20];
    case Message => assert l[..8] == Sip.MESSAGE == Sip.MESSAGE[..7] + [0x20];
    case Options => assert l[..8] == Sip.OPTIONS == Sip.OPTIONS[..7] + [0x20];
    case _ => assert l[..8] == Sip.SIP2;
  }

  lemma Front(a: Bytes, b: Bytes, c: Bytes)
    ensures StartsWith(a + b, a) && StartsWith(a + b + c, a)
  {
  }

  /**
   Who speaks to whom: Via and Contact carry the source address and port, From the source port and To the
   destination port at the domain; From is always tagged and To exactly in a response.
   */
  lemma Parties(kind: Sip.Kind, f: Sip.Fields)
    ensures var l, from, to := Sip.CommonLines(kind, f), f.domain + Sip.CLOSE + Sip.TAG + Sip.Hex8(f.fromTag),
                               f.domain + Sip.CLOSE;
            && |l| == 9
            && StartsWith(l[0], Sip.VIA + f.srcIp + [0x3A] + Dec(f.sport) + [0x3B])
            && l[2] == Sip.FROM + Dec(f.sport) + [0x40] + from
            && l[3] == Sip.TO + Dec(f.dport) + [0x40]
               + (if kind.Register? || kind.Message? || kind.Options? then to else to + Sip.TAG + Sip.Hex8(f.toTag))
            && StartsWith(l[7], Sip.CONTACT + Dec(f.sport) + [0x40] + f.srcIp + [0x3A] + Dec(f.sport))
  {
    hide Dec, Sip.Hex8, Sip.DateLine, StartsWith;
    ViaFront(f);
    Front(Sip.CONTACT + Dec(f.sport) + [0x40] + f.srcIp + [0x3A] + Dec(f.sport), Sip.CLOSE, []);
    Tagged(Sip.FROM + Dec(f.sport) + [0x40], f.domain, Sip.CLOSE, Sip.TAG, Sip.Hex8(f.fromTag));
    Tagged(Sip.TO + Dec(f.dport) + [0x40], f.domain, Sip.CLOSE, Sip.TAG, Sip.Hex8(f.toTag));
  }

  lemma ViaFront(f: Sip.Fields)
    ensures StartsWith(Sip.CommonLines(Sip.Register, f)[0], Sip.VIA + f.srcIp + [0x3A] + Dec(f.sport) + [0x3B])
    ensures Sip.CommonLines(Sip.Register, f)[0]
            == Sip.VIA + f.srcIp + [0x3A] + Dec(f.sport) + Sip.BRANCH + Sip.Hex8(f.token)
  {
    hide Dec, Sip.Hex8, Sip.DateLine;
    var v := Sip.VIA + f.srcIp + [0x3A] + Dec(f.sport);
    assert Sip.BRANCH == [0x3B] + Sip.BRANCH[1..];
    ConcatAssoc(v, [0x3B], Sip.BRANCH[1..]);
    ConcatAssoc(v + [0x3B], Sip.BRANCH[1..], Sip.Hex8(f.token));
    Front(v + [0x3B], Sip.BRANCH[1..] + Sip.Hex8(f.token), []);
  }

  lemma Tagged(p: Bytes, domain: Bytes, close: Bytes, tag: Bytes, hex: Bytes)
    ensures p + domain + close + tag + hex == p + (domain + close + tag + hex)
    ensures p + domain + close + (tag + hex) == p + (domain + close + tag + hex)
    ensures p + domain + close + [] == p + (domain + close)
  {
    ConcatAssoc(p, domain, close);
    ConcatAssoc(p, domain + close, tag);
    ConcatAssoc(p, domain + close + tag, hex);
    ConcatAssoc(p + domain + close, tag, hex);
  }

  /** The session description offers the source as its origin and the destination as its connection. */
  lemma SessionAddresses(f: Sip.Fields)
    ensures var l := Sip.SdpLines(f);
            && |l| == 10 && l[1] == Sip.ORIGIN + Dec(f.millis) + [0x20] + Dec(f.millis) + Sip.IN_IP4 + f.srcIp
            && l[3] == Sip.CONNECTION + f.dstIp && StartsWith(l[5], Sip.AUDIO + Dec(f.rtpPort))
  {
    hide Dec;
    Front(Sip.AUDIO + Dec(f.rtpPort), Sip.AVP, []);
  }

  /** The clock of a Date line: hours, minutes, seconds and microseconds of the day. */
  ghost predicate ClockSays(s: Bytes, micros: nat) {
    && |s| == 15 && s[2] == 0x3A && s[5] == 0x3A && s[8] == 0x2E
    && Number(s[3..5]) < 60 && Number(s[6..8]) < 60 && Number(s[9..15]) < 1000000
    && ((Number(s[0..2]) * 60 + Number(s[3..5])) * 60 + Number(s[6..8])) * 1000000 + Number(s[9..15]) == micros
  }

  lemma ClockSlices(h: Bytes, m: Bytes, s: Bytes, u: Bytes)
    requires |h| == |m| == |s| == 2 && |u| == 6
    ensures var t := h + [0x3A] + m + [0x3A] + s + [0x2E] + u;
            && |t| == 15 && t[2] == 0x3A && t[5] == 0x3A && t[8] == 0x2E
            && t[0..2] == h && t[3..5] == m && t[6..8] == s && t[9..15] == u
  {
    var t := h + [0x3A] + m + [0x3A] + s + [0x2E] + u;
    assert t[0..2] == h;
    assert t[3..5] == m;
    assert t[6..8] == s;
    assert t[9..15] == u;
  }

  /** A Date line is the date, the time of day to the microsecond, and the zone. */
  lemma DateLineSays(f: Sip.Fields)
    requires f.timeOfDay < 86_400_000_000
    ensures exists t :: ClockSays(t, f.timeOfDay) && Sip.DateLine(f) == Sip.DATE + f.date + [0x20] + t + Sip.GMT
  {
    hide DecPadded, Number;
    var v := f.timeOfDay;
    var h, m := DecPadded(v / 3600000000, 2), DecPadded(v / 60000000 % 60, 2);
    var s, u := DecPadded(v / 1000000 % 60, 2), DecPadded(v % 1000000, 6);
    Widths(v / 3600000000, v / 60000000 % 60, v / 1000000 % 60, v % 1000000);
    ClockSlices(h, m, s, u);
    ClockSum(v);
    var t := h + [0x3A] + m + [0x3A] + s + [0x2E] + u;
    assert ClockSays(t, v);
    assert Sip.DateLine(f) == Sip.DATE + f.date + [0x20] + t + Sip.GMT;
  }

  lemma Widths(h: nat, m: nat, s: nat, u: nat)
    requires h < 100 && m < 100 && s < 100 && u < 1000000
    ensures |DecPadded(h, 2)| == |DecPadded(m, 2)| == |DecPadded(s, 2)| == 2 && |DecPadded(u, 6)| == 6
    ensures Number(DecPadded(h, 2)) == h && Number(DecPadded(m, 2)) == m
    ensures Number(DecPadded(s, 2)) == s && Number(DecPadded(u, 6)) == u
  {
    hide DecPadded, Number;
    SipSize.Powers();
    SipSize.PaddedDigits(h, 2);
    SipSize.PaddedDigits(m, 2);
    SipSize.PaddedDigits(s, 2);
    SipSize.PaddedDigits(u, 6);
    PaddedMeans(h, 2);
    PaddedMeans(m, 2);
    PaddedMeans(s, 2);
    PaddedMeans(u, 6);
  }

  lemma ClockSum(v: nat)
    ensures ((v / 3600000000 * 60 + v / 60000000 % 60) * 60 + v / 1000000 % 60) * 1000000 + v % 1000000 == v
  {
    assert v / 60000000 == v / 1000000 / 60 && v / 3600000000 == v / 1000000 / 3600;
  }

  lemma HexSpelled()
    ensures Spells(Sip.Hex8(0x01234567), "01234567") && Spells(Sip.Hex8(0x89ABCDEF), "89abcdef")
  {
  }

  // ---- Syslog --------------------------------------------------------------

  /** Separators and numbers of a stamp of 19 characters. */
  ghost predicate StampSays(s: Bytes, t: Calendar.Date, tod: nat) {
    && |s| == 19 && s[4] == 0x2D && s[7] == 0x2D && s[10] == 0x54 && s[13] == 0x3A && s[16] == 0x3A
    && Number(s[0..4]) == t.year && Number(s[5..7]) == t.month && Number(s[8..10]) == t.day
    && Number(s[11..13]) * 3600 + Number(s[14..16]) * 60 + Number(s[17..19]) == tod
    && Number(s[14..16]) < 60 && Number(s[17..19]) < 60
  }

  lemma StampSlices(y: Bytes, m: Bytes, d: Bytes, h: Bytes, i: Bytes, s: Bytes)
    requires |y| == 4 && |m| == |d| == |h| == |i| == |s| == 2
    ensures var t := y + [0x2D] + m + [0x2D] + d + [0x54] + h + [0x3A] + i + [0x3A] + s;
            && |t| == 19 && t[4] == 0x2D && t[7] == 0x2D && t[10] == 0x54 && t[13] == 0x3A && t[16] == 0x3A
            && t[0..4] == y && t[5..7] == m && t[8..10] == d && t[11..13] == h && t[14..16] == i && t[17..19] == s
  {
    var date, time := y + [0x2D] + m + [0x2D] + d, [0x54] + h + [0x3A] + i + [0x3A] + s;
    var t := y + [0x2D] + m + [0x2D] + d + [0x54] + h + [0x3A] + i + [0x3A] + s;
    assert t == date + time;
    assert t[..10] == date && t[10..] == time;
    assert date[0..4] == y && date[5..7] == m && date[8..10] == d;
    assert time[1..3] == h && time[4..6] == i && time[7..9] == s;
    SliceOfPrefix(t, 10, 0, 4);
    SliceOfPrefix(t, 10, 5, 7);
    SliceOfPrefix(t, 10, 8, 10);
    SliceOfSlice(t, 10, 19, 1, 3);
    SliceOfSlice(t, 10, 19, 4, 6);
    SliceOfSlice(t, 10, 19, 7, 9);
  }

  lemma StampMeans(t: Calendar.Date, tod: nat)
    requires Calendar.ValidDate(t) && t.year < 10000 && tod < 86400
    ensures StampSays(Syslog.Stamp(t, tod), t, tod)
  {
    hide DecPadded, Number;
    Syslog.TwoDigits(t.month);
    Syslog.TwoDigits(t.day);
    Syslog.TwoDigits(tod / 3600);
    Syslog.TwoDigits(tod / 60 % 60);
    Syslog.TwoDigits(tod % 60);
    Syslog.YearDigits(t.year);
    PaddedMeans(t.year, 4);
    PaddedMeans(t.month, 2);
    PaddedMeans(t.day, 2);
    PaddedMeans(tod / 3600, 2);
    PaddedMeans(tod / 60 % 60, 2);
    PaddedMeans(tod % 60, 2);
    StampSlices(DecPadded(t.year, 4), DecPadded(t.month, 2), DecPadded(t.day, 2), DecPadded(tod / 3600, 2),
        DecPadded(tod / 60 % 60, 2), DecPadded(tod % 60, 2));
    TimeOfDay(tod);
  }

  lemma TimeOfDay(tod: nat)
    ensures tod / 3600 * 3600 + tod / 60 % 60 * 60 + tod % 60 == tod
  {
  }

  lemma SyslogSpelled()
    ensures Spells(Syslog.PREFIX, "<165>1 ") && Spells([0x5A, 0x20], "Z ") && Spells(Syslog.MARKER, " - - -  ")
  {
  }

  /** A syslog datagram: priority, version, stamp, name, three empty fields, the packet in Base64. */
  lemma SyslogDatagramSays(env: Env, wg: Bytes, w: Bytes, dcid: bv32)
    requires |wg| > 0 && Calendar.SyslogDate(env.now).year < 10000
    ensures var d, n := Envelope(Mode.Syslog, env, wg, w, dcid), |env.domain|;
            && |d| == 36 + n + |Encoded(w)| && Spells(d[0..7], "<165>1 ")
            && StampSays(d[7..26], Calendar.SyslogDate(env.now), env.now % 86400)
            && Spells(d[26..28], "Z ") && d[28..28 + n] == env.domain
            && Spells(d[28 + n..36 + n], " - - -  ") && d[36 + n..] == Encoded(w)
  {
    hide Syslog.Stamp, Calendar.SyslogDate, Calendar.ValidDate, StampSays, Spells, Encoded, Syslog.HeaderAt;
    var t, name := Calendar.SyslogDate(env.now), env.domain;
    Syslog.DateIsValid(env.now);
    StampMeans(t, env.now % 86400);
    var s := Syslog.Stamp(t, env.now % 86400);
    SyslogSpelled();
    FullLine(t, env.now % 86400, name);
    StampWidth(s, t, env.now % 86400);
    LineSlices(Syslog.PREFIX, s, [0x5A, 0x20], name, Syslog.MARKER, Encoded(w));
  }

  lemma StampWidth(s: Bytes, t: Calendar.Date, tod: nat)
    requires StampSays(s, t, tod)
    ensures |s| == 19
  {
  }

  /** With a year of four digits nothing is cut. */
  lemma FullLine(t: Calendar.Date, tod: nat, name: Bytes)
    requires Calendar.ValidDate(t) && tod < 86400 && t.year < 10000
    ensures Syslog.HeaderAt(t, tod, name) == Syslog.PREFIX + Syslog.Stamp(t, tod) + [0x5A, 0x20] + name + Syslog.MARKER
  {
    hide Syslog.Stamp;
    Syslog.LineLength(t, tod, name);
    Syslog.YearDigits(t.year);
  }

  lemma LineSlices(p: Bytes, s: Bytes, z: Bytes, name: Bytes, m: Bytes, body: Bytes)
    requires |p| == 7 && |s| == 19 && |z| == 2 && |m| == 8
    ensures var d, n := p + s + z + name + m + body, |name|;
            && |d| == 36 + n + |body| && d[0..7] == p && d[7..26] == s && d[26..28] == z && d[28..28 + n] == name
            && d[28 + n..36 + n] == m && d[36 + n..] == body
  {
    var d, n := p + s + z + name + m + body, |name|;
    assert d[0..7] == p;
    assert d[7..26] == s;
    assert d[26..28] == z;
    assert d[28..28 + n] == name;
    assert d[28 + n..36 + n] == m;
    assert d[36 + n..] == body;
  }

  // ---- Recognisers -----------------------------------------------------------

  lemma SaysIff(d: Bytes, a: Bytes, s: string)
    requires Spells(a, s)
    ensures StartsWith(d, a) <==> Says(d, s)
  {
    if Says(d, s) {
      forall i | 0 <= i < |a| ensures d[i] == a[i] {
        assert d[..|s|][i] as int == a[i] as int;
        SameCode(d[i], a[i]);
      }
      assert d[0..|a|] == a;
    }
  }

  lemma SameCode(x: Byte, y: Byte)
    requires x as int == y as int
    ensures x == y
  {
  }

  lemma InviteSpelled()
    ensures Spells(Sip.INVITE, "INVITE ")
  {
  }

  /** A datagram is taken for SIP exactly when it starts like one of these messages and holds a blank line. */
  lemma SipRecognised(d: Bytes)
    ensures Sip.Check(d).Some? <==>
            && |d| >= 16 && (exists j :: 0 <= j && OccursAt(d, [0x0D, 0x0A, 0x0D, 0x0A], j))
            && (Says(d, "INVITE ") || Says(d, "REGISTER ") || Says(d, "MESSAGE ") || Says(d, "OPTIONS ")
                || Says(d, "SIP/2.0 "))
  {
    hide Spells, Says, StartsWith, Find;
    MethodsSpelled();
    StatusSpelled();
    InviteSpelled();
    SaysIff(d, Sip.INVITE, "INVITE ");
    SaysIff(d, Sip.REGISTER, "REGISTER ");
    SaysIff(d, Sip.MESSAGE, "MESSAGE ");
    SaysIff(d, Sip.OPTIONS, "OPTIONS ");
    SaysIff(d, Sip.SIP2, "SIP/2.0 ");
    BlankLineFound(d);
  }

  lemma BlankLineFound(d: Bytes)
    ensures Sip.FindBlankLine(d).Some? <==> exists j :: 0 <= j && OccursAt(d, [0x0D, 0x0A, 0x0D, 0x0A], j)
  {
    hide Find;
    if j :| 0 <= j && OccursAt(d, [0x0D, 0x0A, 0x0D, 0x0A], j) {
      assert OccursAt(d, Sip.CRLF_CRLF, j);
    }
    if Sip.FindBlankLine(d).Some? {
      var p := Sip.FindBlankLine(d).value - 4;
      assert OccursAt(d, Sip.CRLF_CRLF, p);
    }
  }

  /** A datagram is taken for syslog exactly when the marker follows its prefix within the first 68 bytes. */
  lemma SyslogRecognised(d: Bytes)
    ensures Syslog.Check(d).Some? <==>
            && |d| >= 36 && Says(d, "<165>1 ")
            && exists j :: 28 <= j <= 60 && OccursAt(d, Syslog.MARKER, j)
  {
    hide Spells, Says, StartsWith, Find;
    SyslogSpelled();
    SaysIff(d, Syslog.PREFIX, "<165>1 ");
  }

  /** RTP: version 2 and payload type 96, with or without the marker bit. */
  lemma RtpRecognised(d: Bytes)
    ensures Sip.CheckRtp(d) <==> |d| >= 12 && 0x80 <= d[0] < 0xC0 && (d[1] == 0x60 || d[1] == 0xE0)
  {
    if |d| >= 12 { RtpBits(d[0], d[1]); }
  }

  lemma RtpBits(a: Byte, b: Byte)
    ensures a & 0xC0 == 0x80 <==> 0x80 <= a < 0xC0
    ensures b & 0x7F == 0x60 <==> b == 0x60 || b == 0xE0
  {
  }
}
