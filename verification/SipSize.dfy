/** Bounds on the fields of a SIP header under which it fits the buffer it is printed into. */
module SipSize {
  import opened Bytes
  import opened Scan
  import opened Sip

  /**
   Fields of ordinary size: text bounded, ports of 16 bits, milliseconds of thirteen digits, a time
   within the day.
   */
  predicate ShortFields(f: Fields) {
    && |f.domain| <= 40 && |f.srcIp| <= 45 && |f.dstIp| <= 45 && |f.date| <= 16
    && f.sport < 65536 && f.dport < 65536 && f.rtpPort < 65536
    && f.millis < 10_000_000_000_000 && f.timeOfDay < 86_400_000_000
  }

  lemma Powers()
    ensures Pow10(2) == 100 && Pow10(4) == 10_000 && Pow10(5) == 100_000 && Pow10(6) == 1_000_000
    ensures Pow10(13) == 10_000_000_000_000
  {
    assert Pow10(3) == 1000 && Pow10(7) == 10_000_000 && Pow10(10) == 10_000_000_000;
  }

  lemma Digits5(v: nat)
    requires v < 65536
    ensures |Dec(v)| <= 5
  {
    Powers();
    DecLength(v, 5, 100_000);
  }

  lemma PaddedDigits(v: nat, w: nat)
    requires w > 0 && v < Pow10(w)
    ensures |DecPadded(v, w)| == w
  {
    DecLength(v, w, Pow10(w));
  }

  lemma JoinOne(a: Bytes, rest: seq<Bytes>)
    ensures |Join([a] + rest)| == |a| + 2 + |Join(rest)|
  {
    assert ([a] + rest)[1..] == rest;
  }

  lemma JoinThree(a: Bytes, b: Bytes, c: Bytes, rest: seq<Bytes>)
    ensures |Join([a, b, c] + rest)| == |a| + |b| + |c| + 6 + |Join(rest)|
  {
    hide Join;
    assert [a, b, c] + rest == [a] + ([b] + ([c] + rest));
    JoinOne(a, [b] + ([c] + rest));
    JoinOne(b, [c] + rest);
    JoinOne(c, rest);
  }

  lemma {:induction false} JoinConcat(a: seq<Bytes>, b: seq<Bytes>)
    ensures |Join(a + b)| == |Join(a)| + |Join(b)|
  {
    if a == [] {
      assert a + b == b;
    } else {
      assert (a + b)[1..] == a[1..] + b;
      JoinConcat(a[1..], b);
    }
  }

  lemma JoinNine(l: seq<Bytes>)
    requires |l| == 9
    ensures |Join(l)| == |l[0]| + |l[1]| + |l[2]| + |l[3]| + |l[4]| + |l[5]| + |l[6]| + |l[7]| + |l[8]| + 18
  {
    hide Join;
    assert l == [l[0], l[1], l[2]] + l[3..] && l[3..] == [l[3], l[4], l[5]] + l[6..];
    assert l[6..] == [l[6], l[7], l[8]] + [];
    JoinThree(l[0], l[1], l[2], l[3..]);
    JoinThree(l[3], l[4], l[5], l[6..]);
    JoinThree(l[6], l[7], l[8], []);
    JoinNothing();
  }

  lemma JoinNothing()
    ensures Join([]) == []
  {
  }

  lemma FirstSize(kind: Kind, f: Fields)
    requires ShortFields(f)
    ensures |Join(FirstLines(kind, f))| <= 134
  {
    hide Join, Dec, Hex8;
    Digits5(f.dport);
    JoinNothing();
    var l := FirstLines(kind, f);
    if kind.Response401? {
      assert l == [l[0]] + [l[1]] && [l[1]] == [l[1]] + [];
      JoinOne(l[0], [l[1]]);
      JoinOne(l[1], []);
    } else {
      assert l == [l[0]] + [];
      JoinOne(l[0], []);
    }
  }

  lemma DateSize(f: Fields)
    requires ShortFields(f)
    ensures |DateLine(f)| <= 42
  {
    hide DecPadded;
    Powers();
    PaddedDigits(f.timeOfDay / 3600000000, 2);
    PaddedDigits(f.timeOfDay / 60000000 % 60, 2);
    PaddedDigits(f.timeOfDay / 1000000 % 60, 2);
    PaddedDigits(f.timeOfDay % 1000000, 6);
  }

  lemma AddressLines(kind: Kind, f: Fields)
    requires ShortFields(f)
    ensures var l := CommonLines(kind, f);
            && |l| == 9 && |l[0]| <= 92 && |l[1]| == 16 && |l[2]| <= 71 && |l[3]| <= 69 && |l[4]| <= 58
  {
    hide Dec, Hex8, DateLine;
    Digits5(f.sport);
    Digits5(f.dport);
  }

  lemma OtherLines(kind: Kind, f: Fields)
    requires ShortFields(f)
    ensures var l := CommonLines(kind, f); |l| == 9 && |l[5]| <= 19 && |l[6]| <= 42 && |l[7]| <= 72 && |l[8]| == 31
  {
    hide Dec, Hex8, DateLine;
    Digits5(f.sport);
    Powers();
    DecLength(f.millis % 1000 + 1, 4, 10_000);
    DateSize(f);
  }

  lemma CommonSize(kind: Kind, f: Fields)
    requires ShortFields(f)
    ensures |Join(CommonLines(kind, f))| <= 490
  {
    hide Join, CommonLines;
    AddressLines(kind, f);
    OtherLines(kind, f);
    JoinNine(CommonLines(kind, f));
  }

  lemma SdpSize(f: Fields)
    requires ShortFields(f)
    ensures |Join(SdpLines(f))| <= 261
  {
    hide Join, Dec;
    Powers();
    DecLength(f.millis, 13, 10_000_000_000_000);
    Digits5(f.rtpPort);
    var l := SdpLines(f);
    assert l == [l[0]] + l[1..];
    JoinOne(l[0], l[1..]);
    JoinNine(l[1..]);
  }

  /** Every header over such fields, with a body below 9000 bytes, fits. */
  lemma ShortHeaderFits(kind: Kind, f: Fields, payloadLen: nat)
    requires ShortFields(f) && payloadLen < 9000
    ensures |Header(kind, f, payloadLen)| <= MAX_HEADER
  {
    hide Join, Dec, FirstLines, CommonLines, SdpLines;
    FirstSize(kind, f);
    CommonSize(kind, f);
    SdpSize(f);
    Powers();
    JoinNothing();
    var n := |Join(SdpLines(f)) + FMTP| + payloadLen;
    DecLength(n, 4, 10_000);
    DecLength(0, 4, 10_000);
    var last := if payloadLen > 0 then [CONTENT_TYPE, CONTENT_LENGTH + Dec(n)] else [CONTENT_LENGTH + Dec(0)];
    JoinConcat(FirstLines(kind, f) + CommonLines(kind, f), last);
    JoinConcat(FirstLines(kind, f), CommonLines(kind, f));
    if payloadLen > 0 {
      assert last == [last[0]] + [last[1]] && [last[1]] == [last[1]] + [];
      JoinOne(last[0], [last[1]]);
      JoinOne(last[1], []);
    } else {
      assert last == [last[0]] + [];
      JoinOne(last[0], []);
    }
  }
}
