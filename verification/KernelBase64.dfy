/** The kernel's base64: callbacks over one scratch buffer, compared with the userspace forms. */
module KernelBase64 {
  import opened Bytes
  import opened Base64

  const INNER_OFF: nat := 384
  const ENC_OFF: nat := 1280
  const MAX_INNER: nat := 896
  const MAX_OUT: nat := 1200

  /** An offset masked to the scratch buffer, as every access is. */
  function Wrap(i: nat): (j: nat)
    ensures j < SCRATCH
    ensures i < SCRATCH ==> j == i
  {
    i % SCRATCH
  }

  // ---- Encoder -----------------------------------------------------------

  /** `b64_encode_step` for group idx. */
  method EncodeStep(scratch: array<Byte>, inOff: nat, outOff: nat, idx: nat)
    requires scratch.Length == SCRATCH
    requires inOff + 3 * idx + 3 <= SCRATCH && outOff + 4 * idx + 4 <= SCRATCH
    modifies scratch
    ensures var p, o := inOff + 3 * idx, outOff + 4 * idx;
            scratch[..] == Splice(old(scratch[..]), o, EncodeGroup(old(scratch[..])[p..p + 3]))
  {
    hide Alphabet, Sextet0, Sextet1, Sextet2, Sextet3, Wrap;
    var pos, opos := idx * 3, idx * 4;
    var a := scratch[Wrap(inOff + pos)];
    var b := scratch[Wrap(inOff + pos + 1)];
    var d := scratch[Wrap(inOff + pos + 2)];
    ghost var x := scratch[..][inOff + pos..inOff + pos + 3];
    assert x[0] == a && x[1] == b && x[2] == d;
    Put4(scratch, outOff + opos, Alphabet(Sextet0(a)), Alphabet(Sextet1(a, b)), Alphabet(Sextet2(b, d)),
        Alphabet(Sextet3(d)));
  }

  /** Four stores in a row, each offset masked to the buffer. */
  method Put4(scratch: array<Byte>, o: nat, a: Byte, b: Byte, c: Byte, d: Byte)
    requires scratch.Length == SCRATCH && o + 4 <= SCRATCH
    modifies scratch
    ensures scratch[..] == Splice(old(scratch[..]), o, [a, b, c, d])
  {
    hide Splice, Wrap;
    ghost var s := scratch[..];
    scratch[Wrap(o)] := a;
    scratch[Wrap(o + 1)] := b;
    scratch[Wrap(o + 2)] := c;
    scratch[Wrap(o + 3)] := d;
    ghost var g := [a, b, c, d];
    forall i | 0 <= i < SCRATCH ensures scratch[i] == Splice(s, o, g)[i] {
      SpliceAt(s, o, g, i);
    }
  }

  /** The zero-filled sextets that the kernel spells out for a short last group. */
  function ShortSextet1(a: Byte): (v: Byte) ensures v < 64 { (a & 0x3) << 4 }
  function ShortSextet2(b: Byte): (v: Byte) ensures v < 64 { (b & 0xF) << 2 }

  lemma ShortSextets(a: Byte)
    ensures Sextet1(a, 0) == ShortSextet1(a) && Sextet2(a, 0) == ShortSextet2(a)
  {
  }

  /** One or two bytes after the full groups; of more than two only two are used. */
  method EncodeTail(scratch: array<Byte>, inOff: nat, outOff: nat, rem: nat)
    requires scratch.Length == SCRATCH && 1 <= rem
    requires inOff + AtMost(rem, 2) <= SCRATCH && outOff + 4 <= SCRATCH
    modifies scratch
    ensures scratch[..] == Splice(old(scratch[..]), outOff,
            EncodeGroup(old(scratch[..])[inOff..inOff + AtMost(rem, 2)]))
  {
    hide Alphabet, Sextet0, Sextet1, Sextet2, Sextet3, ShortSextet1, ShortSextet2, Wrap, Splice;
    ghost var x := scratch[..][inOff..inOff + AtMost(rem, 2)];
    var a := scratch[Wrap(inOff)];
    assert x[0] == a;
    ShortSextets(a);
    if rem >= 2 {
      var b := scratch[Wrap(inOff + 1)];
      assert x[1] == b;
      ShortSextets(b);
      Put4(scratch, outOff, Alphabet(Sextet0(a)), Alphabet(Sextet1(a, b)), Alphabet(ShortSextet2(b)), PAD);
    } else {
      Put4(scratch, outOff, Alphabet(Sextet0(a)), Alphabet(ShortSextet1(a)), PAD, PAD);
    }
  }

  function AtMost(n: nat, limit: nat): nat { if n > limit then limit else n }

  lemma {:induction false} EncodedPrefix(x: Bytes, k: nat)
    requires 3 * k <= |x|
    ensures Encoded(x) == Encoded(x[..3 * k]) + Encoded(x[3 * k..])
    decreases k
  {
    hide EncodeGroup, Encoded;
    EncodedNil();
    if k == 0 {
      assert x[0..] == x && x[..0] == [];
    } else {
      var y, z := x[..3 * k], x[3..];
      EncodedFront(x);
      EncodedFront(y);
      assert y[..3] == x[..3] && y[3..] == z[..3 * (k - 1)];
      EncodedPrefix(z, k - 1);
      assert z[3 * (k - 1)..] == x[3 * k..];
      ConcatAssoc(EncodeGroup(x[..3]), Encoded(z[..3 * (k - 1)]), Encoded(z[3 * (k - 1)..]));
    }
  }

  lemma EncodedFront(x: Bytes)
    requires |x| >= 3
    ensures Encoded(x) == EncodeGroup(x[..3]) + Encoded(x[3..])
  {
    hide EncodeGroup;
    if |x| == 3 {
      assert x[..3] == x && x[3..] == [];
    }
  }

  lemma EncodedNil()
    ensures Encoded([]) == []
  {
  }

  lemma EncodedExtend(x: Bytes, k: nat)
    requires 3 * k + 3 <= |x|
    ensures Encoded(x[..3 * k + 3]) == Encoded(x[..3 * k]) + EncodeGroup(x[3 * k..3 * k + 3])
  {
    hide EncodeGroup;
    var y := x[..3 * k + 3];
    EncodedPrefix(y, k);
    assert y[..3 * k] == x[..3 * k] && y[3 * k..] == x[3 * k..3 * k + 3];
  }

  lemma EncodedShort(y: Bytes)
    requires 1 <= |y| <= 3
    ensures Encoded(y) == EncodeGroup(y)
  {
    hide EncodeGroup;
  }

  /** `bpf_loop(full_groups, b64_encode_step, ...)`. */
  method EncodeGroups(scratch: array<Byte>, inOff: nat, outOff: nat, groups: nat)
    requires scratch.Length == SCRATCH
    requires inOff + 3 * groups <= outOff && outOff + 4 * groups <= SCRATCH
    modifies scratch
    ensures scratch[..] == Splice(old(scratch[..]), outOff, Encoded(old(scratch[..])[inOff..inOff + 3 * groups]))
  {
    hide EncodeGroup, Encoded, Splice;
    ghost var s := scratch[..];
    ghost var x := s[inOff..inOff + 3 * groups];
    EncodedNil();
    SpliceNothing(s, outOff);
    assert x[..0] == [];
    var idx := 0;
    while idx < groups
      invariant 0 <= idx <= groups
      invariant scratch[..] == Splice(s, outOff, Encoded(x[..3 * idx])) && |Encoded(x[..3 * idx])| == 4 * idx
    {
      ghost var done := Encoded(x[..3 * idx]);
      var p := inOff + 3 * idx;
      SpliceElsewhere(s, outOff, done, p, p + 3);
      SliceOfSlice(s, inOff, inOff + 3 * groups, 3 * idx, 3 * idx + 3);
      EncodedExtend(x, idx);
      SpliceExtend(s, outOff, done, EncodeGroup(x[3 * idx..3 * idx + 3]));
      EncodeStep(scratch, inOff, outOff, idx);
      idx := idx + 1;
    }
    assert x[..3 * groups] == x;
  }

  /** The most input bytes the bounded loop and the tail cover. */
  const COVERED: nat := 902

  /**
   `b64_encode`: the loop runs at most 300 full groups and the tail takes at
   most two bytes, so what is encoded is the input cut at 902 bytes.
   */
  method B64Encode(scratch: array<Byte>, inOff: nat, inLen: nat, outOff: nat) returns (op: nat)
    requires scratch.Length == SCRATCH
    requires var n := AtMost(inLen, COVERED); inOff + n <= outOff && outOff + 4 * ((n + 2) / 3) <= SCRATCH
    modifies scratch
    ensures var x := old(scratch[..])[inOff..inOff + AtMost(inLen, COVERED)];
            op == |Encoded(x)| && scratch[..] == Splice(old(scratch[..]), outOff, Encoded(x))
  {
    hide EncodeGroup, Encoded, Splice;
    ghost var s := scratch[..];
    ghost var n := AtMost(inLen, COVERED);
    var groups := FullGroups(inLen);
    var ip := Mask12(groups * 3);
    op := Mask12(groups * 4);
    var rem := inLen - ip;
    EncodeGroups(scratch, inOff, outOff, groups);
    GroupsAndTail(s, inOff, n, outOff, groups);
    if rem >= 1 {
      EncodeTail(scratch, inOff + ip, outOff + op, rem);
      op := op + 4;
    }
  }

  /** Full groups and a tail of at most two bytes, stored one behind the other, are the whole encoding. */
  lemma GroupsAndTail(s: Bytes, inOff: nat, n: nat, outOff: nat, k: nat)
    requires inOff + n <= outOff && outOff + 4 * ((n + 2) / 3) <= |s| && 3 * k <= n < 3 * k + 3
    ensures var x, done := s[inOff..inOff + n], Encoded(s[inOff..inOff + 3 * k]);
            var d := Splice(s, outOff, done);
            && |done| == 4 * k
            && (n == 3 * k ==> d == Splice(s, outOff, Encoded(x)))
            && (n > 3 * k ==>
                  Splice(d, outOff + 4 * k, EncodeGroup(d[inOff + 3 * k..inOff + n])) == Splice(s, outOff, Encoded(x)))
  {
    hide EncodeGroup, Encoded, Splice;
    var x, i := s[inOff..inOff + n], 3 * k;
    SliceOfSlice(s, inOff, inOff + n, 0, i);
    SliceOfSlice(s, inOff, inOff + n, i, n);
    assert x[0..i] == x[..i] && x[i..n] == x[i..];
    var done := Encoded(x[..i]);
    EncodedPrefix(x, k);
    if n > i {
      EncodedShort(x[i..]);
      SpliceElsewhere(s, outOff, done, inOff + i, inOff + n);
      SpliceExtend(s, outOff, done, EncodeGroup(x[i..]));
    } else {
      assert x[i..] == [];
      EncodedNil();
      assert done + [] == done;
    }
  }

  /** So the kernel encodes an input as userspace does if and only if it has at most 902 bytes. */
  lemma KernelEncodeAgrees(x: Bytes)
    ensures Encoded(x[..AtMost(|x|, COVERED)]) == Encoded(x) <==> |x| <= COVERED
  {
    hide Encoded;
    var y := x[..AtMost(|x|, COVERED)];
    DecodeInvertsEncode(x);
    DecodeInvertsEncode(y);
    if |x| <= COVERED {
      assert y == x;
    }
  }

  function FullGroups(inLen: nat): (g: nat)
    ensures 3 * g <= inLen && g <= 300
    ensures inLen <= COVERED ==> inLen < 3 * g + 3
    ensures inLen > COVERED ==> g == 300
  {
    if inLen / 3 > 300 then 300 else inLen / 3
  }

  function Mask12(v: nat): (w: nat)
    ensures v < 4096 ==> w == v
  {
    v % 4096
  }

  // ---- Decoder -----------------------------------------------------------

  /** The kernel's table: padding and foreign characters count as zero. */
  function KernelLookup(c: Byte): Byte {
    if Lookup(c) == INVALID then 0 else Lookup(c)
  }

  function Triple(g: Bytes): (t: Bytes)
    requires |g| == 4
    ensures |t| == 3
  {
    var v0, v1, v2, v3 := KernelLookup(g[0]), KernelLookup(g[1]), KernelLookup(g[2]), KernelLookup(g[3]);
    [Octet0(v0, v1), Octet1(v1, v2), Octet2(v2, v3)]
  }

  function Triples(s: Bytes): (t: Bytes)
    requires |s| % 4 == 0
    ensures |t| == 3 * (|s| / 4)
  {
    if s == [] then [] else Triples(s[..|s| - 4]) + Triple(s[|s| - 4..])
  }

  function TrailingPads(s: Bytes): (k: nat)
    ensures k <= 2 && (s == [] ==> k == 0)
  {
    if |s| < 4 then 0
    else (if s[|s| - 1] == PAD then 1 else 0) + (if s[|s| - 2] == PAD then 1 else 0)
  }

  /** The whole groups of a string. */
  function Whole(s: Bytes): (w: Bytes)
    ensures |w| % 4 == 0 && |w| / 4 == |s| / 4
    ensures |s| % 4 == 0 ==> w == s
  {
    s[..4 * (|s| / 4)]
  }

  /** What `b64_decode` yields: all whole groups, less one byte for each padding sign among the last two characters. */
  function KernelDecoded(s: Bytes): (x: Bytes)
    ensures |x| == 3 * (|s| / 4) - TrailingPads(s)
  {
    Triples(Whole(s))[..3 * (|s| / 4) - TrailingPads(s)]
  }

  /** `b64_decode_step` for group idx. */
  method DecodeStep(scratch: array<Byte>, inOff: nat, outOff: nat, idx: nat)
    requires scratch.Length == SCRATCH
    requires inOff + 4 * idx + 4 <= SCRATCH && outOff + 3 * idx + 3 <= SCRATCH
    modifies scratch
    ensures var p, o := inOff + 4 * idx, outOff + 3 * idx;
            scratch[..] == Splice(old(scratch[..]), o, Triple(old(scratch[..])[p..p + 4]))
  {
    hide KernelLookup, Octet0, Octet1, Octet2, Wrap, Splice;
    var pos, opos := idx * 4, idx * 3;
    ghost var s := scratch[..];
    ghost var g := s[inOff + pos..inOff + pos + 4];
    var v0 := KernelLookup(scratch[Wrap(inOff + pos)]);
    var v1 := KernelLookup(scratch[Wrap(inOff + pos + 1)]);
    var v2 := KernelLookup(scratch[Wrap(inOff + pos + 2)]);
    var v3 := KernelLookup(scratch[Wrap(inOff + pos + 3)]);
    var o := outOff + opos;
    scratch[Wrap(o)] := Octet0(v0, v1);
    scratch[Wrap(o + 1)] := Octet1(v1, v2);
    scratch[Wrap(o + 2)] := Octet2(v2, v3);
    ghost var t := Triple(g);
    assert t == [Octet0(v0, v1), Octet1(v1, v2), Octet2(v2, v3)];
    forall i | 0 <= i < SCRATCH ensures scratch[i] == Splice(s, o, t)[i] {
      SpliceAt(s, o, t, i);
    }
  }

  lemma TriplesNil()
    ensures Triples([]) == []
  {
  }

  lemma TriplesExtend(s: Bytes, k: nat)
    requires |s| % 4 == 0 && 4 * k + 4 <= |s|
    ensures Triples(s[..4 * k + 4]) == Triples(s[..4 * k]) + Triple(s[4 * k..4 * k + 4])
  {
    hide Triple;
    var y := s[..4 * k + 4];
    assert y[..|y| - 4] == s[..4 * k] && y[|y| - 4..] == s[4 * k..4 * k + 4];
  }

  /** `bpf_loop(ngroups, b64_decode_step, ...)`: a step overwrites only input that is already consumed. */
  method DecodeGroups(scratch: array<Byte>, inOff: nat, outOff: nat, groups: nat)
    requires scratch.Length == SCRATCH
    requires inOff + 4 * groups <= SCRATCH && outOff <= inOff
    modifies scratch
    ensures scratch[..] == Splice(old(scratch[..]), outOff, Triples(old(scratch[..])[inOff..inOff + 4 * groups]))
  {
    hide Triple, Triples, Splice;
    TriplesNil();
    ghost var s := scratch[..];
    ghost var x := s[inOff..inOff + 4 * groups];
    SpliceNothing(s, outOff);
    assert x[..0] == [];
    var idx := 0;
    while idx < groups
      invariant 0 <= idx <= groups
      invariant scratch[..] == Splice(s, outOff, Triples(x[..4 * idx])) && |Triples(x[..4 * idx])| == 3 * idx
    {
      ghost var done := Triples(x[..4 * idx]);
      var p := inOff + 4 * idx;
      SpliceElsewhere(s, outOff, done, p, p + 4);
      SliceOfSlice(s, inOff, inOff + 4 * groups, 4 * idx, 4 * idx + 4);
      TriplesExtend(x, idx);
      SpliceExtend(s, outOff, done, Triple(x[4 * idx..4 * idx + 4]));
      DecodeStep(scratch, inOff, outOff, idx);
      idx := idx + 1;
    }
    assert x[..4 * groups] == x;
  }

  /**
   `b64_decode`.  Output may run into input that is already consumed; the result
   is right whenever the output starts at least two bytes before the input.
   */
  method B64Decode(scratch: array<Byte>, inOff: nat, inLen: nat, outOff: nat) returns (opos: nat)
    requires scratch.Length == SCRATCH
    requires inOff + inLen <= SCRATCH && outOff + 2 <= inOff
    modifies scratch
    ensures outOff + opos <= SCRATCH
    ensures scratch[..][outOff..outOff + opos] == KernelDecoded(old(scratch[..])[inOff..inOff + inLen])
    ensures scratch[..] == Splice(old(scratch[..]), outOff, Triples(Whole(old(scratch[..])[inOff..inOff + inLen])))
  {
    hide Triples, Splice, KernelDecoded, Whole;
    ghost var s := scratch[..];
    ghost var x := s[inOff..inOff + inLen];
    var groups := inLen / 4;
    WholeSlice(s, inOff, inLen);
    DecodeGroups(scratch, inOff, outOff, groups);
    ghost var t := Triples(Whole(x));
    opos := groups * 3;
    if inLen >= 4 {
      var p3 := scratch[Wrap(inOff + inLen - 1)];
      var p2 := scratch[Wrap(inOff + inLen - 2)];
      SpliceAt(s, outOff, t, inOff + inLen - 1);
      SpliceAt(s, outOff, t, inOff + inLen - 2);
      assert p3 == x[inLen - 1] && p2 == x[inLen - 2];
      if p3 == PAD {
        opos := opos - 1;
      }
      if p2 == PAD {
        opos := opos - 1;
      }
    }
    ReadDecoded(s, scratch[..], outOff, x, opos);
  }

  lemma WholeSlice(s: Bytes, off: nat, n: nat)
    requires off + n <= |s|
    ensures Whole(s[off..off + n]) == s[off..off + 4 * (n / 4)]
  {
    SliceOfSlice(s, off, off + n, 0, 4 * (n / 4));
  }

  lemma ReadDecoded(s: Bytes, e: Bytes, outOff: nat, x: Bytes, opos: nat)
    requires outOff + |Triples(Whole(x))| <= |s|
    requires e == Splice(s, outOff, Triples(Whole(x))) && opos == |Triples(Whole(x))| - TrailingPads(x)
    ensures outOff + opos <= |e| && e[outOff..outOff + opos] == KernelDecoded(x)
  {
    hide Triples, Splice, Whole;
    var t := Triples(Whole(x));
    SpliceRead(s, outOff, t);
    SliceOfSlice(e, outOff, outOff + |t|, 0, opos);
    assert t[0..opos] == t[..opos];
  }

  predicate Within(j: int, off: int, len: int) { off <= j < off + len }

  /** With the kernel's offsets, decoding writes into its own input exactly when there are more than 298 groups. */
  lemma DecodeRegionsOverlap(inLen: nat)
    requires inLen % 4 == 0 && inLen <= MAX_OUT
    ensures (exists j :: Within(j, INNER_OFF, 3 * (inLen / 4)) && Within(j, ENC_OFF, inLen)) <==> inLen > 4 * 298
  {
    if inLen > 4 * 298 {
      assert Within(ENC_OFF, INNER_OFF, 3 * (inLen / 4)) && Within(ENC_OFF, ENC_OFF, inLen);
    }
  }

  /** Encoding never does, for every input the callers pass. */
  lemma EncodeRegionsDisjoint(inLen: nat)
    requires inLen <= MAX_INNER
    ensures INNER_OFF + inLen <= ENC_OFF && 4 * ((inLen + 2) / 3) <= MAX_OUT
  {
  }

  // ---- Agreement with userspace -------------------------------------------

  /** Some group before the last carries padding in its fourth place. */
  ghost predicate PaddedInside(s: Bytes)
    requires |s| % 4 == 0
  {
    exists g: nat :: 4 * g + 4 < |s| && s[4 * g + 3] == PAD
  }

  lemma {:induction false} DecodedSnoc(s: Bytes)
    requires |s| % 4 == 0 && s != []
    ensures Decoded(s) == Decoded(s[..|s| - 4]) + DecodeGroup(s[|s| - 4..])
    ensures Valid(s) <==> Valid(s[..|s| - 4]) && ValidGroup(s[|s| - 4..])
    ensures Tame(s) <==> Tame(s[..|s| - 4]) && TameGroup(s[|s| - 4..])
    decreases |s|
  {
    hide DecodeGroup, ValidGroup, TameGroup;
    if |s| == 4 {
      assert s[..4] == s && s[4..] == [];
    } else {
      var t := s[4..];
      DecodedSnoc(t);
      assert t[..|t| - 4] == s[..|s| - 4][4..];
      assert t[|t| - 4..] == s[|s| - 4..];
      assert s[..|s| - 4][..4] == s[..4];
    }
  }

  /** On a valid, tame group the kernel's three bytes start with what userspace decodes. */
  lemma TripleExtendsGroup(g: Bytes)
    requires |g| == 4 && ValidGroup(g) && TameGroup(g)
    ensures |DecodeGroup(g)| == 3 - TrailingPads(g)
    ensures Triple(g)[..|DecodeGroup(g)|] == DecodeGroup(g)
  {
    hide Lookup, Octet0, Octet1, Octet2;
  }

  lemma {:induction false} UnpaddedTriples(s: Bytes)
    requires |s| % 4 == 0 && Valid(s) && Tame(s)
    requires forall g: nat :: 4 * g + 4 <= |s| ==> s[4 * g + 3] != PAD
    ensures Triples(s) == Decoded(s)
    decreases |s|
  {
    hide DecodeGroup, ValidGroup, TameGroup, Triple;
    if s != [] {
      var k := |s| / 4 - 1;
      var init, g := s[..4 * k], s[4 * k..];
      DecodedSnoc(s);
      assert s[4 * k + 3] != PAD;
      assert forall j: nat :: 4 * j + 4 <= |init| ==> init[4 * j + 3] == s[4 * j + 3];
      UnpaddedTriples(init);
      TripleUnpadded(g);
    }
  }

  lemma TripleUnpadded(g: Bytes)
    requires |g| == 4 && ValidGroup(g) && TameGroup(g) && g[3] != PAD
    ensures Triple(g) == DecodeGroup(g)
  {
    hide Lookup, Octet0, Octet1, Octet2;
    TripleExtendsGroup(g);
    assert Triple(g)[..3] == Triple(g);
  }

  lemma {:induction false} DecodedLength(s: Bytes, g: nat)
    requires |s| % 4 == 0 && Valid(s) && Tame(s)
    ensures |Decoded(s)| <= 3 * (|s| / 4)
    ensures 4 * g + 4 <= |s| && s[4 * g + 3] == PAD ==> |Decoded(s)| < 3 * (|s| / 4)
    decreases |s|
  {
    hide DecodeGroup, ValidGroup, TameGroup;
    if s != [] {
      DecodedSnoc(s);
      DecodedLength(s[..|s| - 4], g);
      TripleExtendsGroup(s[|s| - 4..]);
    }
  }

  lemma KernelDecodedSnoc(s: Bytes)
    requires |s| % 4 == 0 && s != []
    ensures var init, last := s[..|s| - 4], s[|s| - 4..];
            KernelDecoded(s) == Triples(init) + Triple(last)[..3 - TrailingPads(last)]
  {
    hide Triple;
  }

  lemma PaddedInsideDiffers(s: Bytes, g: nat)
    requires |s| % 4 == 0 && Valid(s) && Tame(s)
    requires 4 * g + 4 < |s| && s[4 * g + 3] == PAD
    ensures KernelDecoded(s) != Decoded(s)
  {
    hide DecodeGroup, ValidGroup, TameGroup, Triple, Triples, KernelDecoded, Decoded, TrailingPads;
    DecodedSnoc(s);
    TripleExtendsGroup(s[|s| - 4..]);
    KernelDecodedSnoc(s);
    DecodedLength(s[..|s| - 4], g);
  }

  lemma UnpaddedInsideAgrees(s: Bytes)
    requires |s| % 4 == 0 && Valid(s) && Tame(s) && s != [] && !PaddedInside(s)
    ensures KernelDecoded(s) == Decoded(s)
  {
    hide DecodeGroup, ValidGroup, TameGroup, Triple, Triples, KernelDecoded, Decoded, TrailingPads;
    var init := s[..|s| - 4];
    DecodedSnoc(s);
    TripleExtendsGroup(s[|s| - 4..]);
    KernelDecodedSnoc(s);
    forall g: nat | 4 * g + 4 <= |init| ensures init[4 * g + 3] != PAD {
      assert init[4 * g + 3] == s[4 * g + 3];
    }
    UnpaddedTriples(init);
  }

  lemma TameDecodeAgrees(s: Bytes)
    requires |s| % 4 == 0 && Valid(s) && Tame(s)
    ensures KernelDecoded(s) == Decoded(s) <==> !PaddedInside(s)
  {
    hide Valid, Tame, KernelDecoded, Decoded;
    if s == [] {
      KernelDecodedNil();
    } else if PaddedInside(s) {
      var g: nat :| 4 * g + 4 < |s| && s[4 * g + 3] == PAD;
      PaddedInsideDiffers(s, g);
    } else {
      UnpaddedInsideAgrees(s);
    }
  }

  /**
   On every valid string both decoders give the same bytes, whatever the
   userspace buffer held before, if and only if the string is tame and no group
   before the last is padded.
   */
  lemma KernelDecodeAgrees(s: Bytes)
    requires Valid(s)
    ensures (forall was :: 3 * (|s| / 4) <= |was| ==> DecodedOver(s, was) == KernelDecoded(s))
            <==> Tame(s) && !PaddedInside(s)
  {
    hide Valid, Tame, KernelDecoded, Decoded, DecodedOver, PaddedInside;
    ValidLength(s);
    if Tame(s) {
      TameDecodeAgrees(s);
      forall was | 3 * (|s| / 4) <= |was| ensures DecodedOver(s, was) == Decoded(s) {
        TameOver(s, was);
      }
      assert 3 * (|s| / 4) <= |Zeros(3 * (|s| / 4))|;
    } else {
      var a, b := HoleOver(s);
      assert 3 * (|s| / 4) <= |a| && 3 * (|s| / 4) <= |b|;
    }
  }

  lemma ValidLength(s: Bytes)
    requires Valid(s)
    ensures |s| % 4 == 0
  {
  }

  lemma KernelDecodedNil()
    ensures KernelDecoded([]) == Decoded([]) == []
  {
  }

  /** Hence the kernel decodes what either encoder writes, for every input. */
  lemma KernelDecodeInvertsEncode(x: Bytes)
    ensures KernelDecoded(Encoded(x)) == x
  {
    DecodeInvertsEncode(x);
    TameDecodeAgrees(Encoded(x));
    forall g: nat | 4 * g + 4 < |Encoded(x)| ensures Encoded(x)[4 * g + 3] != PAD {
      EncodedUnpaddedInside(x, g);
    }
  }

  lemma {:induction false} EncodedUnpaddedInside(x: Bytes, g: nat)
    requires 4 * g + 4 < |Encoded(x)|
    ensures Encoded(x)[4 * g + 3] != PAD
    decreases g
  {
    hide EncodeGroup;
    EncodedStep([], x);
    DecodeEncodedGroup(x[..3]);
    if g > 0 {
      EncodedUnpaddedInside(x[3..], g - 1);
    }
  }
}
