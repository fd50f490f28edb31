/** The syslog envelope: header writer and recogniser. */
module Syslog {
  import opened Bytes
  import opened Scan
  import Calendar

  const HDR_BASE: nat := 36

  /** "<165>1 " */
  const PREFIX: Bytes := [0x3C, 0x31, 0x36, 0x35, 0x3E, 0x31, 0x20]
  /** " - - -  " */
  const MARKER: Bytes := [0x20, 0x2D, 0x20, 0x2D, 0x20, 0x2D, 0x20, 0x20]

  /** "YYYY-MM-DDTHH:MM:SS" */
  function Stamp(t: Calendar.Date, tod: nat): Bytes {
    DecPadded(t.year, 4) + [0x2D] + DecPadded(t.month, 2) + [0x2D] + DecPadded(t.day, 2) + [0x54]
    + DecPadded(tod / 3600, 2) + [0x3A] + DecPadded(tod / 60 % 60, 2) + [0x3A] + DecPadded(tod % 60, 2)
  }

  /** The whole formatted line: prefix, stamp, "Z ", name, marker. */
  function Line(t: Calendar.Date, tod: nat, name: Bytes): Bytes {
    PREFIX + Stamp(t, tod) + [0x5A, 0x20] + name + MARKER
  }

  lemma TwoDigits(v: nat)
    requires v < 100
    ensures |DecPadded(v, 2)| == 2
  {
    DecLength(v, 2, 100);
  }

  /** Years of four digits give a stamp of 19 bytes; longer years push everything behind them. */
  lemma StampLength(t: Calendar.Date, tod: nat)
    requires Calendar.ValidDate(t) && tod < 86400
    ensures |Stamp(t, tod)| == 15 + |DecPadded(t.year, 4)|
  {
    hide DecPadded;
    TwoDigits(t.month);
    TwoDigits(t.day);
    TwoDigits(tod / 3600);
    TwoDigits(tod / 60 % 60);
    TwoDigits(tod % 60);
  }

  lemma LineLength(t: Calendar.Date, tod: nat, name: Bytes)
    requires Calendar.ValidDate(t) && tod < 86400
    ensures |Line(t, tod, name)| == 32 + |DecPadded(t.year, 4)| + |name|
    ensures |Line(t, tod, name)| >= HDR_BASE + |name|
  {
    hide Stamp;
    StampLength(t, tod);
  }

  /** `write_header` for a given date: the line is formatted into a slice of fixed length, so it is cut there. */
  function HeaderAt(t: Calendar.Date, tod: nat, name: Bytes): (h: Bytes)
    requires Calendar.ValidDate(t) && tod < 86400
    ensures |h| == HDR_BASE + |name|
  {
    LineLength(t, tod, name);
    Line(t, tod, name)[..HDR_BASE + |name|]
  }

  lemma DateIsValid(now: nat)
    ensures Calendar.ValidDate(Calendar.SyslogDate(now)) && Calendar.SyslogDate(now).year < 100000000
  {
    hide Calendar.Civil, Calendar.ValidDate;
    var z := (now / 86400 % Calendar.TWO32 + Calendar.EPOCH) % Calendar.TWO32;
    Calendar.CivilStep(z);
    YearBound(z);
  }

  /** `write_header` at a given time. */
  function Header(now: nat, name: Bytes): (h: Bytes)
    ensures |h| == HDR_BASE + |name|
  {
    DateIsValid(now);
    HeaderAt(Calendar.SyslogDate(now), now % 86400, name)
  }

  /** `check_header`. */
  function Check(buf: Bytes): Option<nat> {
    if |buf| < HDR_BASE || !StartsWith(buf, PREFIX) then None
    else
      var end := if |buf| < 68 then |buf| else 68;
      match Find(buf, MARKER, 28, end - 7)
      case Some(i) => Some(i + 8)
      case None => None
  }

  /** `check_header` as the scan it is. */
  method CheckHeader(buf: Bytes) returns (r: Option<nat>)
    ensures r == Check(buf)
  {
    if |buf| < HDR_BASE {
      return None;
    }
    if buf[0..7] != PREFIX {
      return None;
    }
    var end := if |buf| < 68 then |buf| else 68;
    var i := 28;
    while i < end - 7
      invariant 28 <= i <= end - 7
      invariant forall j :: 28 <= j < i ==> !OccursAt(buf, MARKER, j)
    {
      if buf[i..i + 8] == MARKER {
        FindIs(buf, MARKER, 28, end - 7, i);
        return Some(i + 8);
      }
      i := i + 1;
    }
    return None;
  }

  /** The marker does not start inside the name. */
  predicate MarkerFreeName(name: Bytes) {
    forall j :: 0 <= j < |name| ==> !OccursAt(name + MARKER, MARKER, j)
  }

  lemma SpacelessIsMarkerFree(name: Bytes)
    requires 0x20 !in name
    ensures MarkerFreeName(name)
  {
    var w := name + MARKER;
    forall j | 0 <= j < |name| ensures !OccursAt(w, MARKER, j) {
      assert w[j] in name;
      assert w[j..j + 8][0] != MARKER[0];
    }
  }

  /** Midnight of 1 January 10000, in seconds since 1970. */
  const YEAR_10000: nat := 253_402_300_800

  lemma YearBefore10000(now: nat)
    requires now < YEAR_10000
    ensures Calendar.SyslogDate(now).year < 10000
  {
    hide Calendar.Civil;
    Calendar.YearBefore10000(now / 86400);
    assert Calendar.SyslogDate(now) == Calendar.Civil(now / 86400 + Calendar.EPOCH);
  }

  /** A year prints four digits, or its own five to eight. */
  lemma YearDigits(year: nat)
    requires year < 100000000
    ensures 4 <= |DecPadded(year, 4)| <= 8
    ensures |DecPadded(year, 4)| == 4 <==> year < 10000
  {
    DecLength(year, 8, 100000000);
    if year < 10000 {
      DecLength(year, 4, 10000);
    } else {
      LongYear(year);
    }
  }

  lemma LongYear(year: nat)
    requires year >= 10000
    ensures |Dec(year)| > 4
  {
    assert |Dec(year / 1000)| > 1;
    assert year / 10 / 10 / 10 == year / 1000;
    assert |Dec(year / 100)| > 2 && |Dec(year / 10)| > 3;
  }

  lemma YearBound(z: nat)
    requires z < Calendar.TWO32
    ensures Calendar.Civil(z).year < 100000000
  {
    hide Calendar.YearOfEra, Calendar.YearStart;
    Calendar.YearOfEraContains(z - z / 146097 * 146097);
    assert z / 146097 <= 29400;
  }

  /** The marker differs from every shift of itself by one to four places. */
  lemma ShiftedMarker(w: Bytes, k: nat)
    requires |w| == 8 && 1 <= k <= 4 && w[k..] == MARKER[..8 - k]
    ensures w != MARKER
  {
    var i := if k == 1 then 1 else if k == 3 then 4 else 7;
    assert w[i] == w[k..][i - k] == MARKER[i - k];
  }

  /** What lies behind the stamp, for a year with k digits beyond four. */
  lemma LineTail(t: Calendar.Date, tod: nat, name: Bytes, payload: Bytes)
    requires Calendar.ValidDate(t) && tod < 86400 && t.year < 100000000
    ensures var k := |DecPadded(t.year, 4)| - 4;
            var buf := HeaderAt(t, tod, name) + payload;
            && 0 <= k <= 4
            && StartsWith(buf, PREFIX)
            && (k == 0 ==> buf[28..HDR_BASE + |name|] == name + MARKER)
            && buf[28 + |name|..HDR_BASE + |name|][k..] == MARKER[..8 - k]
  {
    hide Stamp, DecPadded;
    var k := |DecPadded(t.year, 4)| - 4;
    StampLength(t, tod);
    LineLength(t, tod, name);
    YearDigits(t.year);
    var line := Line(t, tod, name);
    var front := PREFIX + Stamp(t, tod) + [0x5A, 0x20];
    assert |front| == 28 + k && line == front + name + MARKER;
    var buf := HeaderAt(t, tod, name) + payload;
    assert buf[0..7] == line[0..7] == PREFIX;
    if k == 0 {
      assert line == front + (name + MARKER);
      assert buf[28..HDR_BASE + |name|] == line[28..];
    }
    assert buf[28 + |name|..HDR_BASE + |name|][k..] == line[28 + k + |name|..HDR_BASE + |name|];
  }

  /** For a given date. */
  lemma CheckInvertsHeaderAt(t: Calendar.Date, tod: nat, name: Bytes, payload: Bytes)
    requires Calendar.ValidDate(t) && tod < 86400 && t.year < 100000000
    ensures Check(HeaderAt(t, tod, name) + payload) == Some(HDR_BASE + |name|)
            <==> t.year < 10000 && |name| <= 32 && MarkerFreeName(name)
  {
    hide DecPadded, Line, Find;
    var k := |DecPadded(t.year, 4)| - 4;
    var buf := HeaderAt(t, tod, name) + payload;
    LineTail(t, tod, name, payload);
    YearDigits(t.year);
    var at := 28 + |name|;
    var end := if |buf| < 68 then |buf| else 68;
    if k > 0 {
      ShiftedMarker(buf[at..at + 8], k);
    } else {
      NameOccurrences(buf, name);
      if |name| <= 32 && MarkerFreeName(name) {
        FindIs(buf, MARKER, 28, end - 7, at);
      }
    }
  }

  /**
   The recogniser finds exactly the written header if and only if the year has
   four digits, the name at most 32 bytes and no marker starts inside it.
   */
  lemma CheckInvertsHeader(now: nat, name: Bytes, payload: Bytes)
    ensures Check(Header(now, name) + payload) == Some(|Header(now, name)|)
            <==> Calendar.SyslogDate(now).year < 10000 && |name| <= 32 && MarkerFreeName(name)
  {
    hide Calendar.SyslogDate, Check, HeaderAt, MarkerFreeName;
    DateIsValid(now);
    CheckInvertsHeaderAt(Calendar.SyslogDate(now), now % 86400, name, payload);
  }

  /** Occurrences of the marker up to the end of the name are those in the name and marker alone. */
  lemma NameOccurrences(buf: Bytes, name: Bytes)
    requires HDR_BASE + |name| <= |buf| && buf[28..HDR_BASE + |name|] == name + MARKER
    ensures OccursAt(buf, MARKER, 28 + |name|)
    ensures forall j :: 28 <= j < 28 + |name| ==>
              (OccursAt(buf, MARKER, j) <==> OccursAt(name + MARKER, MARKER, j - 28))
    ensures MarkerFreeName(name) <==> forall j :: 28 <= j < 28 + |name| ==> !OccursAt(buf, MARKER, j)
  {
    var w := name + MARKER;
    forall j | 28 <= j < 28 + |name| ensures OccursAt(buf, MARKER, j) <==> OccursAt(w, MARKER, j - 28) {
      SliceOfSlice(buf, 28, HDR_BASE + |name|, j - 28, j - 20);
    }
    assert buf[28 + |name|..HDR_BASE + |name|] == w[|name|..];
    if forall j :: 28 <= j < 28 + |name| ==> !OccursAt(buf, MARKER, j) {
      forall j | 0 <= j < |name| ensures !OccursAt(w, MARKER, j) {
        assert !OccursAt(buf, MARKER, j + 28);
      }
    }
  }
}
