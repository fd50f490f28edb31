/** Base64 (section 4 of RFC 4648): the userspace encoder and decoder. */
module Base64 {
  import opened Bytes

  const PAD: Byte := 0x3D  // '='
  const INVALID: Byte := 0xFF

  /** Table 1 of RFC 4648. */
  function Alphabet(v: Byte): Byte
    requires v < 64
  {
    if v < 26 then 0x41 + v
    else if v < 52 then 0x61 + (v - 26)
    else if v < 62 then 0x30 + (v - 52)
    else if v == 62 then 0x2B
    else 0x2F
  }

  /** Entry c of the constant decode table: the padding sign counts as zero. */
  function Lookup(c: Byte): Byte {
    if 0x41 <= c <= 0x5A then c - 0x41
    else if 0x61 <= c <= 0x7A then c - 0x61 + 26
    else if 0x30 <= c <= 0x39 then c - 0x30 + 52
    else if c == 0x2B then 62
    else if c == 0x2F then 63
    else if c == PAD then 0
    else INVALID
  }

  lemma LookupInvertsAlphabet(v: Byte)
    requires v < 64
    ensures Lookup(Alphabet(v)) == v && Alphabet(v) != PAD
  {
  }

  // ---- One group ---------------------------------------------------------

  function Sextet0(a: Byte): (v: Byte) ensures v < 64 { a >> 2 }
  function Sextet1(a: Byte, b: Byte): (v: Byte) ensures v < 64 { ((a & 0x3) << 4) | (b >> 4) }
  function Sextet2(b: Byte, c: Byte): (v: Byte) ensures v < 64 { ((b & 0xF) << 2) | (c >> 6) }
  function Sextet3(c: Byte): (v: Byte) ensures v < 64 { c & 0x3F }

  function Octet0(v0: Byte, v1: Byte): Byte { (v0 << 2) | (v1 >> 4) }
  function Octet1(v1: Byte, v2: Byte): Byte { (v1 << 4) | (v2 >> 2) }
  function Octet2(v2: Byte, v3: Byte): Byte { (v2 << 6) | v3 }

  lemma OctetsOfSextets(a: Byte, b: Byte, c: Byte)
    ensures Octet0(Sextet0(a), Sextet1(a, b)) == a
    ensures Octet1(Sextet1(a, b), Sextet2(b, c)) == b
    ensures Octet2(Sextet2(b, c), Sextet3(c)) == c
  {
  }

  /** The four characters of a group of one to three bytes. */
  function EncodeGroup(x: Bytes): (s: Bytes)
    requires 1 <= |x|
    ensures |s| == 4
  {
    var b := if |x| > 1 then x[1] else 0;
    var c := if |x| > 2 then x[2] else 0;
    [ Alphabet(Sextet0(x[0])), Alphabet(Sextet1(x[0], b)),
      if |x| > 1 then Alphabet(Sextet2(b, c)) else PAD,
      if |x| > 2 then Alphabet(Sextet3(c)) else PAD ]
  }

  /** What a four-character group stands for: one byte, or two or three when unpadded. */
  function DecodeGroup(s: Bytes): (x: Bytes)
    requires |s| == 4
    ensures 1 <= |x| <= 3
  {
    var v1, v2, v3 := Lookup(s[1]), Lookup(s[2]), Lookup(s[3]);
    [Octet0(Lookup(s[0]), v1)]
    + (if s[2] != PAD then [Octet1(v1, v2)] else [])
    + (if s[3] != PAD then [Octet2(v2, v3)] else [])
  }

  lemma DecodeEncodedGroup(x: Bytes)
    requires 1 <= |x|
    ensures DecodeGroup(EncodeGroup(x)) == if |x| < 3 then x else x[..3]
    ensures ValidGroup(EncodeGroup(x)) && TameGroup(EncodeGroup(x))
    ensures EncodeGroup(x)[3] == PAD <==> |x| < 3
    ensures EncodeGroup(x)[2] == PAD <==> |x| < 2
  {
    hide Alphabet, Lookup, Sextet0, Sextet1, Sextet2, Sextet3, Octet0, Octet1, Octet2;
    var b := if |x| > 1 then x[1] else 0;
    var c := if |x| > 2 then x[2] else 0;
    OctetsOfSextets(x[0], b, c);
    LookupInvertsAlphabet(Sextet0(x[0]));
    LookupInvertsAlphabet(Sextet1(x[0], b));
    LookupInvertsAlphabet(Sextet2(b, c));
    LookupInvertsAlphabet(Sextet3(c));
    PadIsZero();
  }

  lemma PadIsZero()
    ensures Lookup(PAD) == 0
  {
  }

  /** No character outside the table. */
  predicate ValidGroup(s: Bytes)
    requires |s| == 4
  {
    Lookup(s[0]) != INVALID && Lookup(s[1]) != INVALID && Lookup(s[2]) != INVALID && Lookup(s[3]) != INVALID
  }

  /** The third character is padding only if the fourth is. */
  predicate TameGroup(s: Bytes)
    requires |s| == 4
  {
    s[2] == PAD ==> s[3] == PAD
  }

  /** The sextets of a group are the 24 bits of its bytes, in order. */
  lemma GroupBits(a: Byte, b: Byte, c: Byte)
    ensures ((Sextet0(a) as bv32) << 18) | ((Sextet1(a, b) as bv32) << 12) | ((Sextet2(b, c) as bv32) << 6)
            | (Sextet3(c) as bv32)
            == ((a as bv32) << 16) | ((b as bv32) << 8) | (c as bv32)
  {
  }

  /** Vectors of section 10 of RFC 4648, and groups that reach the digits and the last two characters. */
  lemma GroupVectors()
    ensures EncodeGroup([0x66]) == [0x5A, 0x67, 0x3D, 0x3D] && EncodeGroup([0x66, 0x6F]) == [0x5A, 0x6D, 0x38, 0x3D]
    ensures EncodeGroup([0x66, 0x6F, 0x6F]) == [0x5A, 0x6D, 0x39, 0x76]
    ensures EncodeGroup([0xD3, 0x5D, 0xB7]) == [0x30, 0x31, 0x32, 0x33]
    ensures EncodeGroup([0xFB, 0xEF, 0xFF]) == [0x2B, 0x2B, 0x2F, 0x2F]
  {
  }

  // ---- Whole strings -----------------------------------------------------

  function Encoded(x: Bytes): (s: Bytes)
    ensures |s| == 4 * ((|x| + 2) / 3)
  {
    if x == [] then []
    else if |x| <= 3 then EncodeGroup(x)
    else EncodeGroup(x[..3]) + Encoded(x[3..])
  }

  predicate Valid(s: Bytes) {
    |s| % 4 == 0 && (s == [] || (ValidGroup(s[..4]) && Valid(s[4..])))
  }

  predicate Tame(s: Bytes)
    requires |s| % 4 == 0
  {
    s == [] || (TameGroup(s[..4]) && Tame(s[4..]))
  }

  function Decoded(s: Bytes): Bytes
    requires |s| % 4 == 0
  {
    if s == [] then [] else DecodeGroup(s[..4]) + Decoded(s[4..])
  }

  /** Decoding inverts encoding on every byte string. */
  lemma {:induction false} DecodeInvertsEncode(x: Bytes)
    ensures Valid(Encoded(x)) && Tame(Encoded(x)) && Decoded(Encoded(x)) == x
  {
    hide EncodeGroup, DecodeGroup, ValidGroup, TameGroup;
    if x != [] {
      var s := Encoded(x);
      var g := if |x| <= 3 then x else x[..3];
      DecodeEncodedGroup(g);
      assert s[..4] == EncodeGroup(g);
      if |x| > 3 {
        assert s[4..] == Encoded(x[3..]);
        DecodeInvertsEncode(x[3..]);
        assert x == x[..3] + x[3..];
      } else {
        assert s[4..] == [];
        assert Decoded(s) == DecodeGroup(s[..4]) + [];
      }
    }
  }

  // ---- The loops ---------------------------------------------------------

  lemma EncodedStep(done: Bytes, x: Bytes)
    requires x != []
    ensures done + Encoded(x) == if |x| <= 3 then (done + EncodeGroup(x)) + []
            else (done + EncodeGroup(x[..3])) + Encoded(x[3..])
  {
    hide EncodeGroup;
    if |x| > 3 {
      ConcatAssoc(done, EncodeGroup(x[..3]), Encoded(x[3..]));
    }
  }

  /** One loop body of `encode`: reads input[i..], writes four characters at o. */
  method EncodeStep(input: Bytes, i: nat, output: array<Byte>, o: nat)
    requires i < |input| && o + 4 <= output.Length
    modifies output
    ensures output[..o + 4] == old(output[..o]) + EncodeGroup(if i + 3 < |input| then input[i..i + 3] else input[i..])
    ensures forall j :: o + 4 <= j < output.Length ==> output[j] == old(output[j])
  {
    hide Alphabet, Sextet0, Sextet1, Sextet2, Sextet3;
    var n := |input|;
    var b0 := input[i];
    var b1 := if i + 1 < n then input[i + 1] else 0;
    var b2 := if i + 2 < n then input[i + 2] else 0;
    output[o] := Alphabet(Sextet0(b0));
    output[o + 1] := Alphabet(Sextet1(b0, b1));
    output[o + 2] := if i + 1 < n then Alphabet(Sextet2(b1, b2)) else PAD;
    output[o + 3] := if i + 2 < n then Alphabet(Sextet3(b2)) else PAD;
    assert output[..o + 4] == output[..o] + [output[o], output[o + 1], output[o + 2], output[o + 3]];
    assert output[..o] == old(output[..o]);
  }

  lemma EncodedEmpty()
    ensures Encoded([]) == []
  {
  }

  /** `encode`. */
  method Encode(input: Bytes, output: array<Byte>) returns (o: nat)
    requires |Encoded(input)| <= output.Length
    modifies output
    ensures o == |Encoded(input)| && output[..o] == Encoded(input)
    ensures output[o..] == old(output[o..])
  {
    hide EncodeGroup, Encoded;
    var i, n := 0, |input|;
    o := 0;
    EncodedEmpty();
    assert input[0..] == input;
    while i < n
      invariant 0 <= i < n + 3 && 3 * o == 4 * i
      invariant Encoded(input) == output[..o] + Encoded(if i < n then input[i..] else [])
      invariant forall j :: o <= j < output.Length ==> output[j] == old(output[j])
      decreases n - i
    {
      EncodedStep(output[..o], input[i..]);
      assert i + 3 < n ==> input[i..][..3] == input[i..i + 3] && input[i..][3..] == input[i + 3..];
      EncodeStep(input, i, output, o);
      i := i + 3;
      o := o + 4;
    }
  }

  /** What `decode` leaves for a group: a third character that alone is padding leaves a hole in the buffer. */
  function GroupOver(g: Bytes, hole: Byte): (x: Bytes)
    requires |g| == 4
    ensures |x| == |DecodeGroup(g)|
  {
    if TameGroup(g) then DecodeGroup(g) else [DecodeGroup(g)[0], hole]
  }

  /** The bytes `decode` reports, over the former contents of the output buffer. */
  function DecodedOver(s: Bytes, was: Bytes): Bytes {
    if |s| < 4 || |was| < 3 then []
    else
      var h := GroupOver(s[..4], was[1]);
      h + DecodedOver(s[4..], was[|h|..])
  }

  lemma {:induction false} OverLength(s: Bytes, was: Bytes)
    requires |s| % 4 == 0 && 3 * (|s| / 4) <= |was|
    ensures |DecodedOver(s, was)| == |Decoded(s)|
  {
    hide DecodeGroup, TameGroup;
    if s != [] {
      OverLength(s[4..], was[|DecodeGroup(s[..4])|..]);
    }
  }

  lemma {:induction false} TameOver(s: Bytes, was: Bytes)
    requires |s| % 4 == 0 && 3 * (|s| / 4) <= |was| && Tame(s)
    ensures DecodedOver(s, was) == Decoded(s)
  {
    hide DecodeGroup, TameGroup;
    if s != [] {
      TameOver(s[4..], was[|DecodeGroup(s[..4])|..]);
    }
  }

  /** A group that is not tame shows a byte of the buffer. */
  lemma {:induction false} HoleOver(s: Bytes) returns (a: Bytes, b: Bytes)
    requires |s| % 4 == 0 && !Tame(s)
    ensures |a| == |b| == 3 * (|s| / 4) && DecodedOver(s, a) != DecodedOver(s, b)
  {
    hide DecodeGroup;
    var n := 3 * (|s| / 4);
    if !TameGroup(s[..4]) {
      a, b := Zeros(n), Zeros(n)[1 := 1];
      assert DecodedOver(s, a)[1] == 0 && DecodedOver(s, b)[1] == 1;
    } else {
      var c, d := HoleOver(s[4..]);
      var h := DecodeGroup(s[..4]);
      a, b := Zeros(|h|) + c + Zeros(3 - |h|), Zeros(|h|) + d + Zeros(3 - |h|);
      BehindGroup(s, c);
      BehindGroup(s, d);
    }
  }

  lemma BehindGroup(s: Bytes, c: Bytes)
    requires |s| % 4 == 0 && s != [] && TameGroup(s[..4]) && |c| == 3 * (|s| / 4) - 3
    ensures var n := |DecodeGroup(s[..4])|;
            DecodedOver(s, Zeros(n) + c + Zeros(3 - n))[n..] == DecodedOver(s[4..], c)
  {
    hide DecodeGroup, TameGroup, DecodedOver;
    var h := DecodeGroup(s[..4]);
    var a := Zeros(|h|) + c + Zeros(3 - |h|);
    OverStep(s, a);
    LongerBuffer(s[4..], c, Zeros(3 - |h|));
    assert a[|h|..] == c + Zeros(3 - |h|);
  }

  lemma {:induction false} LongerBuffer(s: Bytes, a: Bytes, more: Bytes)
    requires 3 * (|s| / 4) <= |a|
    ensures DecodedOver(s, a + more) == DecodedOver(s, a)
  {
    hide DecodeGroup, TameGroup;
    if |s| >= 4 {
      var h := GroupOver(s[..4], a[1]);
      assert (a + more)[|h|..] == a[|h|..] + more;
      LongerBuffer(s[4..], a[|h|..], more);
    }
  }

  /** The result does not depend on the former contents of the buffer if and only if the input is tame. */
  lemma DeterminedIffTame(s: Bytes)
    requires |s| % 4 == 0
    ensures Tame(s) <==> forall was :: 3 * (|s| / 4) <= |was| ==> DecodedOver(s, was) == Decoded(s)
  {
    if Tame(s) {
      forall was | 3 * (|s| / 4) <= |was| ensures DecodedOver(s, was) == Decoded(s) {
        TameOver(s, was);
      }
    } else {
      var a, b := HoleOver(s);
    }
  }

  /** `decode`: it fails exactly on a length that is not a multiple of four or a character outside the table. */
  method Decode(input: Bytes, output: array<Byte>) returns (r: Option<nat>)
    requires 3 * (|input| / 4) <= output.Length
    modifies output
    ensures r.Some? <==> Valid(input)
    ensures r.Some? ==> r.value == |Decoded(input)| <= output.Length
    ensures r.Some? ==> output[..r.value] == DecodedOver(input, old(output[..]))
    ensures r.Some? && Tame(input) ==> output[..r.value] == Decoded(input)
  {
    hide DecodeGroup, ValidGroup, TameGroup, Decoded, Valid, Tame, DecodedOver, GroupOver, Reached, Stepped;
    if |input| % 4 != 0 {
      InvalidLength(input);
      return None;
    }
    var i, o, n := 0, 0, |input|;
    ghost var was := output[..];
    NothingRead(input, was);
    while i < n
      invariant 0 <= i <= n && i % 4 == 0 && 0 <= o <= 3 * (i / 4) <= output.Length
      invariant Reached(input, was, i, o, output[..])
    {
      ghost var out := output[..];
      var written := DecodeStep(input[i..i + 4], output, o);
      ReachedNext(input, was, i, o, out, output[..], written);
      if written == 0 {
        return None;
      }
      o := o + written;
      i := i + 4;
    }
    AllRead(input, was, o, output[..]);
    OverLength(input, was);
    if Tame(input) {
      TameOver(input, was);
    }
    r := Some(o);
  }

  /** The state of the loop after i characters and o bytes. */
  ghost predicate Reached(s: Bytes, was: Bytes, i: nat, o: nat, out: Bytes)
    requires i <= |s| && o <= |was|
  {
    && |out| == |was| && Valid(s) == Valid(s[i..])
    && DecodedOver(s, was) == out[..o] + DecodedOver(s[i..], was[o..])
    && forall j :: o < j < |was| ==> out[j] == was[j]
  }

  /** What one loop body does to the buffer. */
  ghost predicate Stepped(g: Bytes, o: nat, out: Bytes, next: Bytes, written: nat)
    requires |g| == 4 && o + 3 <= |out|
  {
    && |next| == |out| && written == (if ValidGroup(g) then |DecodeGroup(g)| else 0)
    && (ValidGroup(g) ==> next[..o + written] == out[..o] + GroupOver(g, out[o + 1]))
    && forall j :: o + written < j < |out| ==> next[j] == out[j]
  }

  lemma NothingRead(s: Bytes, was: Bytes)
    ensures Reached(s, was, 0, 0, was)
  {
    hide DecodedOver, Valid;
    assert s[0..] == s && was[0..] == was && was[..0] + DecodedOver(s, was) == DecodedOver(s, was);
  }

  lemma ReachedNext(s: Bytes, was: Bytes, i: nat, o: nat, out: Bytes, next: Bytes, written: nat)
    requires i + 4 <= |s| && o + 3 <= |was| && |s[i..]| % 4 == 0
    requires Reached(s, was, i, o, out) && Stepped(s[i..i + 4], o, out, next, written)
    ensures written == 0 <==> !ValidGroup(s[i..i + 4])
    ensures written == 0 ==> !Valid(s)
    ensures written > 0 ==> written <= 3 && Reached(s, was, i + 4, o + written, next)
  {
    hide DecodeGroup, ValidGroup, GroupOver, DecodedOver, Valid;
    var t, w := s[i..], was[o..];
    assert t[..4] == s[i..i + 4] && t[4..] == s[i + 4..] && w[1] == was[o + 1] == out[o + 1];
    NextGroup(out[..o], t, w);
    if written > 0 {
      assert w[written..] == was[o + written..];
    }
  }

  lemma AllRead(s: Bytes, was: Bytes, o: nat, out: Bytes)
    requires o <= |was| && Reached(s, was, |s|, o, out)
    ensures Valid(s) && out[..o] == DecodedOver(s, was)
  {
    assert s[|s|..] == [];
    DecodedNil(was[o..]);
    assert out[..o] + [] == out[..o];
  }

  lemma InvalidLength(s: Bytes)
    requires |s| % 4 != 0
    ensures !Valid(s)
  {
  }

  lemma DecodedNil(was: Bytes)
    ensures DecodedOver([], was) == [] && Valid([])
  {
  }

  lemma NextGroup(done: Bytes, s: Bytes, was: Bytes)
    requires |s| % 4 == 0 && |s| >= 4 && |was| >= 3
    ensures var h := GroupOver(s[..4], was[1]);
            done + DecodedOver(s, was) == (done + h) + DecodedOver(s[4..], was[|h|..])
    ensures Valid(s) <==> ValidGroup(s[..4]) && Valid(s[4..])
  {
    hide DecodeGroup, ValidGroup, GroupOver, DecodedOver;
    var h := GroupOver(s[..4], was[1]);
    OverStep(s, was);
    ConcatAssoc(done, h, DecodedOver(s[4..], was[|h|..]));
  }

  lemma OverStep(s: Bytes, was: Bytes)
    requires |s| >= 4 && |was| >= 3
    ensures var h := GroupOver(s[..4], was[1]); DecodedOver(s, was) == h + DecodedOver(s[4..], was[|h|..])
  {
    hide DecodeGroup, GroupOver;
  }

  lemma GroupOverIs(g: Bytes, hole: Byte)
    requires |g| == 4
    ensures var v0, v1, v2, v3 := Lookup(g[0]), Lookup(g[1]), Lookup(g[2]), Lookup(g[3]);
            GroupOver(g, hole) ==
            if g[2] != PAD && g[3] != PAD then [Octet0(v0, v1), Octet1(v1, v2), Octet2(v2, v3)]
            else if g[2] != PAD then [Octet0(v0, v1), Octet1(v1, v2)]
            else if g[3] != PAD then [Octet0(v0, v1), hole]
            else [Octet0(v0, v1)]
  {
    hide Lookup, Octet0, Octet1, Octet2;
  }

  /** One loop body of `decode`; zero stands for the early return on an invalid character. */
  method DecodeStep(g: Bytes, output: array<Byte>, o: nat) returns (written: nat)
    requires |g| == 4 && o + 3 <= output.Length
    modifies output
    ensures Stepped(g, o, old(output[..]), output[..], written)
  {
    hide Lookup, Octet0, Octet1, Octet2, DecodeGroup, GroupOver;
    GroupOverIs(g, output[o + 1]);
    var v0, v1, v2, v3 := Lookup(g[0]), Lookup(g[1]), Lookup(g[2]), Lookup(g[3]);
    if v0 == INVALID || v1 == INVALID || v2 == INVALID || v3 == INVALID {
      return 0;
    }
    output[o] := Octet0(v0, v1);
    written := 1;
    if g[2] != PAD {
      output[o + 1] := Octet1(v1, v2);
      written := written + 1;
    }
    if g[3] != PAD {
      output[o + 2] := Octet2(v2, v3);
      written := written + 1;
    }
    assert output[o..o + written] == GroupOver(g, old(output[o + 1]));
    assert output[..o + written] == output[..o] + output[o..o + written];
    assert output[..o] == old(output[..o]);
  }
}
