/** First occurrence of a pattern in a byte string. */
module Scan {
  import opened Bytes

  predicate OccursAt(buf: Bytes, pat: Bytes, j: nat) {
    j + |pat| <= |buf| && buf[j..j + |pat|] == pat
  }

  /** The least j in [i, end) at which the pattern occurs. */
  function Find(buf: Bytes, pat: Bytes, i: nat, end: nat): (r: Option<nat>)
    ensures r.Some? ==> i <= r.value < end && OccursAt(buf, pat, r.value)
    ensures r.Some? ==> forall j :: i <= j < r.value ==> !OccursAt(buf, pat, j)
    ensures r.None? ==> forall j :: i <= j < end ==> !OccursAt(buf, pat, j)
    decreases end - i
  {
    if i >= end then None
    else if OccursAt(buf, pat, i) then Some(i)
    else Find(buf, pat, i + 1, end)
  }

  /** A found position with nothing before it is the result. */
  lemma FindIs(buf: Bytes, pat: Bytes, i: nat, end: nat, j: nat)
    requires i <= j < end && OccursAt(buf, pat, j)
    requires forall k :: i <= k < j ==> !OccursAt(buf, pat, k)
    ensures Find(buf, pat, i, end) == Some(j)
  {
    hide Find;
  }

  predicate StartsWith(buf: Bytes, pat: Bytes) { OccursAt(buf, pat, 0) }

  // ---- Decimal and hexadecimal text ----------------------------------------

  function Digit(v: nat): Byte
    requires v < 10
  {
    0x30 + v as Byte
  }

  function Dec(v: nat): Bytes {
    if v < 10 then [Digit(v)] else Dec(v / 10) + [Digit(v % 10)]
  }

  /** `{:02}` and its wider forms: zero-padded to w digits. */
  function DecPadded(v: nat, w: nat): Bytes {
    seq(if |Dec(v)| < w then w - |Dec(v)| else 0, _ => 0x30) + Dec(v)
  }

  lemma {:induction false} DecLength(v: nat, w: nat, bound: nat)
    requires w > 0 && bound == Pow10(w) && v < bound
    ensures |Dec(v)| <= w
    decreases w
  {
    if v >= 10 {
      assert w > 1;
      DecLength(v / 10, w - 1, Pow10(w - 1));
    }
  }

  function Pow10(w: nat): nat { if w == 0 then 1 else 10 * Pow10(w - 1) }

  /** Every character is a decimal digit. */
  predicate Digits(s: Bytes) { forall i :: 0 <= i < |s| ==> 0x30 <= s[i] <= 0x39 }

  lemma DigitRange(v: nat)
    requires v < 10
    ensures 0x30 <= Digit(v) <= 0x39
  {
    var b := v as Byte;
    assert b < 10;
  }

  lemma {:induction false} DecDigits(v: nat)
    ensures Digits(Dec(v))
  {
    hide Digit;
    if v < 10 {
      DigitRange(v);
    } else {
      DecDigits(v / 10);
      DigitRange(v % 10);
    }
  }

  lemma DecPaddedDigits(v: nat, w: nat)
    ensures Digits(DecPadded(v, w))
  {
    DecDigits(v);
  }
}
