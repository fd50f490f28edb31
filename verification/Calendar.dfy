/** Day number to civil date, as written in the syslog and SIP writers, against the Gregorian leap-year rule. */
module Calendar {
  import opened Bytes

  datatype Date = Date(year: nat, month: nat, day: nat)

  // ---- Reference calendar --------------------------------------------------

  predicate Leap(y: nat) { y % 4 == 0 && (y % 100 != 0 || y % 400 == 0) }

  function MonthDays(y: nat, m: nat): nat {
    if m == 2 then (if Leap(y) then 29 else 28)
    else if m in {4, 6, 9, 11} then 30
    else 31
  }

  predicate ValidDate(t: Date) {
    1 <= t.month <= 12 && 1 <= t.day <= MonthDays(t.year, t.month)
  }

  function Tomorrow(t: Date): Date {
    if t.day < MonthDays(t.year, t.month) then Date(t.year, t.month, t.day + 1)
    else if t.month < 12 then Date(t.year, t.month + 1, 1)
    else Date(t.year + 1, 1, 1)
  }

  /** The date n days after 1970-01-01, by counting. */
  function DayByDay(n: nat): Date {
    if n == 0 then Date(1970, 1, 1) else Tomorrow(DayByDay(n - 1))
  }

  // ---- The closed form -----------------------------------------------------

  function YearOfEra(doe: nat): int { (doe - doe / 1460 + doe / 36524 - doe / 146096) / 365 }

  /** Days from the start of an era to its year y, years starting on 1 March. */
  function YearStart(y: int): int { 365 * y + y / 4 - y / 100 }

  /** Days from 1 March to the start of month mp. */
  function MonthStart(mp: int): int { (153 * mp + 2) / 5 }

  /** Within century c, four-year block q and day s of the block, the formula counts whole years. */
  lemma YearOfEraAt(c: nat, q: nat, s: nat)
    requires c < 4 && q < 25 && s < 1461 && 1461 * q + s < 36524
    ensures YearOfEra(36524 * c + 1461 * q + s) == 100 * c + 4 * q + (if s == 1460 then 3 else s / 365)
  {
    var doe := 36524 * c + 1461 * q + s;
    var e := (24 * c + q + s) / 1460;
    assert doe / 36524 == c;
    assert doe / 146096 == 0;
    assert doe / 1460 == 25 * c + q + e by {
      assert doe == 1460 * (25 * c + q) + (24 * c + q + s);
    }
    var k := if s == 1460 then 3 else s / 365;
    assert 365 * k <= s - e < 365 * (k + 1);
    assert doe - doe / 1460 + c == 365 * (100 * c + 4 * q + k) + (s - e - 365 * k);
  }

  /** Splits a day of an era other than its last into century, block and day. */
  lemma Split(doe: nat) returns (c: nat, q: nat, s: nat)
    requires doe < 146096
    ensures c < 4 && q < 25 && s < 1461 && 1461 * q + s < 36524
    ensures doe == 36524 * c + 1461 * q + s
  {
    c := doe / 36524;
    q := (doe - 36524 * c) / 1461;
    s := doe - 36524 * c - 1461 * q;
  }

  lemma YearStartAt(c: nat, q: nat, k: nat)
    requires q < 25 && k < 4
    ensures YearStart(100 * c + 4 * q + k) == 36524 * c + 1461 * q + 365 * k
  {
    var y := 100 * c + 4 * q + k;
    assert y / 4 == 25 * c + q;
    assert y / 100 == c;
  }

  /** The formula picks the year that contains the day. */
  lemma YearOfEraContains(doe: nat)
    requires doe < 146097
    ensures var y := YearOfEra(doe);
            0 <= y < 400 && YearStart(y) <= doe < YearStart(y + 1) + (if y == 399 then 1 else 0)
  {
    if doe == 146096 {
      assert YearOfEra(doe) == 399;
    } else {
      hide YearOfEra, YearStart;
      var c, q, s := Split(doe);
      YearOfEraAt(c, q, s);
      var k := if s == 1460 then 3 else s / 365;
      YearStartAt(c, q, k);
      if k < 3 {
        YearStartAt(c, q, k + 1);
      } else if q < 24 {
        YearStartAt(c, q + 1, 0);
      } else {
        YearStartAt(c + 1, 0, 0);
      }
    }
  }

  /** The straight-line date code, from the day count z since 0000-03-01. */
  function Civil(z: nat): Date {
    var era := z / 146097;
    var doe := z - era * 146097;
    YearOfEraContains(doe);
    var yoe := YearOfEra(doe);
    var y := yoe + era * 400;
    var doy := doe - YearStart(yoe);
    var mp := (5 * doy + 2) / 153;
    var d := doy - MonthStart(mp) + 1;
    var m := if mp < 10 then mp + 3 else mp - 9;
    MonthContains(doy);
    Date(if m <= 2 then y + 1 else y, m, d)
  }

  const EPOCH: nat := 719468

  /** The month formula picks the month that contains the day. */
  lemma MonthContains(doy: nat)
    requires doy < 366
    ensures var mp := (5 * doy + 2) / 153;
            0 <= mp < 12 && MonthStart(mp) <= doy < MonthStart(mp + 1)
  {
  }

  lemma {:induction false} YearStartGrows(a: int, b: int)
    requires 0 <= a < b
    ensures YearStart(a) + 365 * (b - a) <= YearStart(b)
    decreases b
  {
    LeapDaysGrow(b - 1);
    if a < b - 1 {
      YearStartGrows(a, b - 1);
    }
  }

  lemma LeapDaysGrow(y: int)
    requires 0 <= y
    ensures y / 4 - y / 100 <= (y + 1) / 4 - (y + 1) / 100 <= y / 4 - y / 100 + 1
  {
    var q, r := y / 100, y % 100;
    assert y / 4 == 25 * q + r / 4;
    if r == 99 {
      assert (y + 1) / 100 == q + 1;
      assert (y + 1) / 4 == 25 * (q + 1);
    } else {
      assert (y + 1) / 100 == q;
      assert (y + 1) / 4 == 25 * q + (r + 1) / 4;
    }
  }

  /** Length of a year of the era; the last one also ends the 400-year cycle. */
  function YearDays(yoe: nat): int {
    YearStart(yoe + 1) + (if yoe == 399 then 1 else 0) - YearStart(yoe)
  }

  /** No other year of the era contains the day. */
  lemma YearIs(yoe: nat, doy: nat)
    requires yoe < 400 && doy < YearDays(yoe)
    ensures 0 <= YearStart(yoe) + doy < 146097 && YearOfEra(YearStart(yoe) + doy) == yoe
  {
    hide YearOfEra;
    if 0 < yoe { YearStartGrows(0, yoe); }
    var doe := YearStart(yoe) + doy;
    if yoe < 399 { YearStartGrows(yoe + 1, 400); }
    YearOfEraContains(doe);
    var y := YearOfEra(doe);
    if y + 1 < yoe {
      YearStartGrows(y + 1, yoe);
    } else if yoe + 1 < y {
      YearStartGrows(yoe + 1, y);
    }
  }

  lemma YearDaysBound(yoe: nat)
    requires yoe < 400
    ensures 365 <= YearDays(yoe) <= 366
  {
    LeapDaysGrow(yoe);
    assert YearStart(400) - YearStart(399) == 365;
  }

  lemma EraOf(era: nat, doe: nat)
    requires doe < 146097
    ensures (era * 146097 + doe) / 146097 == era
  {
  }

  /** Civil in terms of era, year of era and day of year. */
  lemma CivilAt(era: nat, yoe: nat, doy: nat)
    requires yoe < 400 && doy < YearDays(yoe)
    ensures doy < 366
    ensures var mp := (5 * doy + 2) / 153;
            var m := if mp < 10 then mp + 3 else mp - 9;
            Civil(era * 146097 + YearStart(yoe) + doy)
            == Date(era * 400 + yoe + (if m <= 2 then 1 else 0), m, doy - MonthStart(mp) + 1)
  {
    hide YearOfEra, YearStart, YearDays;
    YearIs(yoe, doy);
    YearDaysBound(yoe);
    EraOf(era, YearStart(yoe) + doy);
  }

  lemma Mod4(k: nat, c: nat)
    ensures (4 * k + c) % 4 == c % 4
  {
    assert 4 * k + c == 4 * (k + c / 4) + c % 4;
  }

  lemma Mod100(k: nat, c: nat)
    ensures (100 * k + c) % 100 == c % 100
  {
    assert 100 * k + c == 100 * (k + c / 100) + c % 100;
  }

  lemma Mod400(k: nat, c: nat)
    ensures (400 * k + c) % 400 == c % 400
  {
    assert 400 * k + c == 400 * (k + c / 400) + c % 400;
  }

  lemma LeapInCycle(era: nat, c: nat)
    ensures Leap(era * 400 + c) == Leap(c)
  {
    Mod4(100 * era, c);
    Mod100(4 * era, c);
    Mod400(era, c);
  }

  /** A year that ends on 29 February is exactly one whose next civil year is leap. */
  lemma YearLength(era: nat, yoe: nat)
    requires yoe < 400
    ensures YearDays(yoe) == if Leap(era * 400 + yoe + 1) then 366 else 365
  {
    var c := yoe + 1;
    LeapInCycle(era, c);
    assert c / 4 - yoe / 4 == if c % 4 == 0 then 1 else 0;
    assert c / 100 - yoe / 100 == if c % 100 == 0 then 1 else 0;
  }

  /** Month boundaries agree with the lengths of the months March to January. */
  lemma MonthLength(y: nat, mp: nat)
    requires mp < 12
    ensures mp < 11 ==> MonthStart(mp + 1) - MonthStart(mp) == MonthDays(y, if mp < 10 then mp + 3 else mp - 9)
    ensures mp == 11 ==> MonthStart(mp) == 337
  {
    if mp < 4 {
    } else if mp < 8 {
    } else {
    }
  }

  /** The next day of the year stays in its month or opens the next one. */
  lemma MonthAdvances(doy: nat)
    requires doy + 1 < 366
    ensures var mp, mp' := (5 * doy + 2) / 153, (5 * (doy + 1) + 2) / 153;
            mp' == if doy + 1 < MonthStart(mp + 1) then mp else mp + 1
  {
    MonthContains(doy);
    MonthContains(doy + 1);
  }

  lemma StepWithinYear(era: nat, yoe: nat, doy: nat)
    requires yoe < 400
    requires doy + 1 < if Leap(era * 400 + yoe + 1) then 366 else 365
    ensures var z := era * 146097 + YearStart(yoe) + doy;
            ValidDate(Civil(z)) && Civil(z + 1) == Tomorrow(Civil(z))
  {
    hide Civil, Leap, YearDays, YearStart;
    YearLength(era, yoe);
    CivilAt(era, yoe, doy);
    CivilAt(era, yoe, doy + 1);
    MonthContains(doy);
    MonthAdvances(doy);
    var mp := (5 * doy + 2) / 153;
    MonthLength(era * 400 + yoe + (if mp < 10 then 0 else 1), mp);
  }

  lemma YearStartsNext(era: nat, yoe: nat, doy: nat)
    requires yoe < 400 && doy + 1 == YearDays(yoe)
    ensures era * 146097 + YearStart(yoe) + doy + 1
            == if yoe < 399 then era * 146097 + YearStart(yoe + 1) else (era + 1) * 146097 + YearStart(0)
  {
  }

  lemma StepAcrossYear(era: nat, yoe: nat, doy: nat)
    requires yoe < 400
    requires doy + 1 == if Leap(era * 400 + yoe + 1) then 366 else 365
    ensures var z := era * 146097 + YearStart(yoe) + doy;
            ValidDate(Civil(z)) && Civil(z + 1) == Tomorrow(Civil(z))
  {
    hide Civil, Leap, YearDays;
    YearLength(era, yoe);
    CivilAt(era, yoe, doy);
    YearStartsNext(era, yoe, doy);
    assert (5 * doy + 2) / 153 == 11;
    if yoe < 399 {
      YearLength(era, yoe + 1);
      CivilAt(era, yoe + 1, 0);
    } else {
      YearLength(era + 1, 0);
      CivilAt(era + 1, 0, 0);
    }
  }

  /** Advancing the day count by one is the calendar's next day. */
  lemma CivilStep(z: nat)
    ensures ValidDate(Civil(z)) && Civil(z + 1) == Tomorrow(Civil(z))
  {
    hide Civil, Leap, Tomorrow, ValidDate, YearOfEra, YearStart;
    var era := z / 146097;
    var doe := z - era * 146097;
    YearOfEraContains(doe);
    var yoe := YearOfEra(doe);
    var doy := doe - YearStart(yoe);
    YearLength(era, yoe);
    if doy + 1 < if Leap(era * 400 + yoe + 1) then 366 else 365 {
      StepWithinYear(era, yoe, doy);
    } else {
      StepAcrossYear(era, yoe, doy);
    }
  }

  /** The closed form is the Gregorian calendar: day n after the epoch is the date reached by counting n days. */
  lemma {:induction false} CivilIsGregorian(n: nat)
    ensures Civil(EPOCH + n) == DayByDay(n) && ValidDate(DayByDay(n))
  {
    hide Civil, Tomorrow, ValidDate;
    if n == 0 {
      CivilAtEpoch();
    } else {
      CivilIsGregorian(n - 1);
      CivilStep(EPOCH + n - 1);
    }
    CivilStep(EPOCH + n);
  }

  lemma CivilAtEpoch()
    ensures Civil(EPOCH) == Date(1970, 1, 1)
  {
    hide Civil;
    assert EPOCH == 4 * 146097 + YearStart(369) + 306;
    CivilAt(4, 369, 306);
  }

  // ---- The copies and their integer widths ---------------------------------

  const TWO32: nat := 0x1_0000_0000
  const TWO64: nat := 0x1_0000_0000_0000_0000

  /** The syslog copies (Rust and C): the day count is cut to 32 bits and the sum wraps. */
  function SyslogDate(now: nat): Date {
    Civil((now / 86400 % TWO32 + EPOCH) % TWO32)
  }

  function Key(t: Date): int { 512 * t.year + 32 * t.month + t.day }

  lemma {:induction false} CivilGrows(a: nat, b: nat)
    requires a < b
    ensures Key(Civil(a)) < Key(Civil(b))
    decreases b
  {
    hide Civil;
    CivilStep(b - 1);
    if a < b - 1 {
      CivilGrows(a, b - 1);
    }
  }

  /** It is the right date exactly while the day count fits. */
  lemma SyslogDateIsGregorian(now: nat)
    ensures SyslogDate(now) == DayByDay(now / 86400) <==> now / 86400 + EPOCH < TWO32
  {
    hide Civil;
    var n := now / 86400;
    CivilIsGregorian(n);
    var z := (n % TWO32 + EPOCH) % TWO32;
    if n + EPOCH >= TWO32 {
      assert z < n + EPOCH;
      CivilGrows(z, n + EPOCH);
    }
  }

  /** A date whose year is a 32-bit signed number. */
  datatype SignedDate = SignedDate(year: int, month: nat, day: nat)

  const MAX_YEAR: int := 0x7FFF_FFFF

  /** `as i32`. */
  function Wrap32(n: int): (w: int)
    ensures -MAX_YEAR - 1 <= w <= MAX_YEAR
  {
    (n + 0x8000_0000) % TWO32 - 0x8000_0000
  }

  lemma Wrap32Facts(a: int, b: int)
    ensures Wrap32(a) == a <==> -MAX_YEAR - 1 <= a <= MAX_YEAR
    ensures Wrap32(a + Wrap32(b)) == Wrap32(a + b)
  {
    var k := (b + 0x8000_0000) / TWO32;
    assert Wrap32(b) == b - k * TWO32;
    Wrap32Periodic(a + b, k);
  }

  lemma Wrap32Periodic(n: int, k: int)
    ensures Wrap32(n - k * TWO32) == Wrap32(n)
  {
    var m := n + 0x8000_0000;
    var q, r := m / TWO32, m % TWO32;
    assert m - k * TWO32 == (q - k) * TWO32 + r;
    Remainder(q - k, r);
  }

  lemma Remainder(q: int, r: int)
    requires 0 <= r < TWO32
    ensures (q * TWO32 + r) % TWO32 == r
  {
  }

  /**
   The SIP copy: the year is computed in 32-bit signed arithmetic, the month
   counted from zero.  An overflow panics in a checked build and wraps
   otherwise.
   */
  function SipDate(timestamp: nat, checked: bool): (r: Option<SignedDate>)
    requires timestamp < TWO64
  {
    var days := timestamp / 86400 + EPOCH;
    var era := days / 146097;
    var doe := days - era * 146097;
    YearOfEraContains(doe);
    var yoe := YearOfEra(doe);
    var doy := doe - (365 * yoe + yoe / 4 - yoe / 100);
    var mp := (5 * doy + 2) / 153;
    MonthContains(doy);
    var day := doy - (153 * mp + 2) / 5 + 1;
    var month := (if mp < 10 then mp + 3 else mp - 9) - 1;
    var product := Wrap32(Wrap32(era) * 400);
    var sum := Wrap32(yoe + product);
    var year := if month <= 1 then Wrap32(sum + 1) else sum;
    var overflow := product != Wrap32(era) * 400 || sum != yoe + product || (month <= 1 && year != sum + 1);
    if checked && overflow then None else Some(SignedDate(year, month + 1, day))
  }

  /** The SIP date in terms of the closed form: its year wrapped, or a panic exactly when the year does not fit. */
  lemma SipDateIsCivil(timestamp: nat, checked: bool)
    requires timestamp < TWO64
    ensures var t := Civil(timestamp / 86400 + EPOCH);
            SipDate(timestamp, checked) ==
            if checked && t.year > MAX_YEAR then None else Some(SignedDate(Wrap32(t.year), t.month, t.day))
  {
    hide YearOfEra, Wrap32;
    var days := timestamp / 86400 + EPOCH;
    var era := days / 146097;
    var yoe := YearOfEra(days - era * 146097);
    YearOfEraContains(days - era * 146097);
    Wrap32Facts(era, 0);
    Wrap32Facts(era * 400, 0);
    Wrap32Facts(yoe, era * 400);
    Wrap32Facts(yoe + era * 400, 0);
    Wrap32Facts(yoe + Wrap32(era * 400), 0);
    Wrap32Facts(1, yoe + era * 400);
    Wrap32Facts(1 + yoe + era * 400, 0);
  }

  /** Midnight of 1 January 2147483648, in seconds since 1970. */
  const SIP_LIMIT: nat := 67_767_976_233_532_800

  lemma YearAtLimit()
    ensures Civil(SIP_LIMIT / 86400 + EPOCH) == Date(MAX_YEAR + 1, 1, 1)
    ensures Civil(SIP_LIMIT / 86400 + EPOCH - 1) == Date(MAX_YEAR, 12, 31)
  {
    hide Civil;
    assert SIP_LIMIT / 86400 + EPOCH == 5368709 * 146097 + YearStart(47) + 306;
    CivilAt(5368709, 47, 306);
    CivilAt(5368709, 47, 305);
  }

  lemma YearFits(n: nat)
    ensures Civil(n + EPOCH).year <= MAX_YEAR <==> n < SIP_LIMIT / 86400
  {
    hide Civil, ValidDate;
    var limit := SIP_LIMIT / 86400;
    YearAtLimit();
    CivilStep(n + EPOCH);
    MonthAndDay(Civil(n + EPOCH));
    if n + 1 < limit {
      CivilGrows(n + EPOCH, limit + EPOCH - 1);
    } else if n > limit {
      CivilGrows(limit + EPOCH, n + EPOCH);
    }
  }

  lemma YearBefore10000(n: nat)
    requires n < 2932897
    ensures Civil(n + EPOCH).year < 10000
  {
    hide Civil, ValidDate;
    assert 2932897 + EPOCH == 24 * 146097 + YearStart(399) + 306;
    CivilAt(24, 399, 306);
    CivilStep(n + EPOCH);
    MonthAndDay(Civil(n + EPOCH));
    CivilGrows(n + EPOCH, 2932897 + EPOCH);
  }

  lemma MonthAndDay(t: Date)
    requires ValidDate(t)
    ensures 33 <= 32 * t.month + t.day < 512
  {
  }

  /** In either build the SIP date is right if and only if the timestamp lies before the year 2147483648. */
  lemma SipDateIsGregorian(timestamp: nat, checked: bool)
    requires timestamp < TWO64
    ensures var t := DayByDay(timestamp / 86400);
            SipDate(timestamp, checked) == Some(SignedDate(t.year, t.month, t.day)) <==> timestamp < SIP_LIMIT
  {
    hide Civil, SipDate, Wrap32;
    var n := timestamp / 86400;
    SipDateIsCivil(timestamp, checked);
    CivilIsGregorian(n);
    YearFits(n);
    Wrap32Facts(Civil(n + EPOCH).year, 0);
    assert n < SIP_LIMIT / 86400 <==> timestamp < SIP_LIMIT;
  }

  /** The first day of the era that contains no representable year. */
  const LATE_DAY: nat := 5368710 * 146097

  lemma EraStart(era: nat)
    ensures Civil(era * 146097) == Date(era * 400, 3, 1)
  {
    hide Civil;
    CivilAt(era, 0, 0);
  }

  /** A timestamp beyond it: a panic in a checked build, a negative year otherwise. */
  lemma SipDateOverflows(ts: nat)
    requires ts == 86400 * (LATE_DAY - EPOCH)
    ensures ts < TWO64 && SipDate(ts, true) == None && SipDate(ts, false) == Some(SignedDate(-2147483296, 3, 1))
  {
    hide Civil, SipDate;
    assert ts / 86400 == LATE_DAY - EPOCH;
    EraStart(5368710);
    SipDateIsCivil(ts, true);
    SipDateIsCivil(ts, false);
  }
}
