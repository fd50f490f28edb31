/** One's-complement checksums (RFC 1071): bounded folding, the IPv4 header fill and the ICMP loop. */
module Checksum {
  import opened Bytes

  const M: nat := 65535

  // ---- Folding -------------------------------------------------------------

  function Fold(c: nat): nat { c % 65536 + c / 65536 }

  /** One guarded fold, as both the loop and the unrolled code write it. */
  function Folded(c: nat): nat { if c / 65536 != 0 then Fold(c) else c }

  lemma FoldCongruent(c: nat)
    ensures Fold(c) % M == c % M
    ensures Fold(c) == 0 <==> c == 0
    ensures c >= 65536 ==> Fold(c) < c
  {
    var q, r := c / 65536, c % 65536;
    assert c == q * M + (q + r);
    Congruent(q, q + r);
  }

  lemma Congruent(q: nat, x: nat)
    ensures (q * M + x) % M == x % M
  {
    assert q * M + x == M * (q + x / M) + x % M;
  }

  /** The end-around-carry sum: fold until the value fits 16 bits. */
  function Ones(c: nat): (s: nat)
    ensures s < 65536
    decreases c
  {
    FoldCongruent(c);
    if c < 65536 then c else Ones(Fold(c))
  }

  /** What determines the sum: its size, its value modulo 65535, and whether it is zero. */
  predicate SumOf(s: nat, c: nat) { s < 65536 && s % M == c % M && (s == 0 <==> c == 0) }

  lemma {:induction false} OnesIsSum(c: nat)
    ensures SumOf(Ones(c), c)
    decreases c
  {
    if c >= 65536 {
      FoldCongruent(c);
      OnesIsSum(Fold(c));
    }
  }

  lemma OnesIsUnique(c: nat, s: nat)
    ensures s == Ones(c) <==> SumOf(s, c)
  {
    hide Ones;
    OnesIsSum(c);
  }

  /** Both values fold to the same sum. */
  predicate SameSum(c: nat, d: nat) { c % M == d % M && (c == 0 <==> d == 0) }

  /** Folding a congruent value gives the same sum. */
  lemma OnesCongruent(c: nat, d: nat)
    requires SameSum(c, d)
    ensures Ones(c) == Ones(d)
  {
    hide Ones;
    OnesIsSum(d);
    OnesIsUnique(c, Ones(d));
  }

  /** Size after each fold of a 64-bit accumulator. */
  lemma FoldShrinks(c: nat)
    ensures c < 0x1_0000_0000_0000_0000 ==> Folded(c) <= 0x1_0000_0000_FFFE
    ensures c <= 0x1_0000_0000_FFFE ==> Folded(c) <= 0x1_0000_FFFE
    ensures c <= 0x1_0000_FFFE ==> Folded(c) <= 0x1_FFFE
    ensures c <= 0x1_FFFE ==> Folded(c) <= 0xFFFF
  {
  }

  lemma FoldedOnes(c: nat)
    ensures Ones(Folded(c)) == Ones(c)
  {
    hide Ones;
    FoldCongruent(c);
    OnesCongruent(Folded(c), c);
  }

  /** `csum_fold` on a 64-bit accumulator, before the final complement. */
  function FourFolds(c: nat): nat { Folded(Folded(Folded(Folded(c)))) }

  /** The bounded form equals the unbounded loop on every 64-bit value. */
  lemma FourFoldsSuffice(c: nat)
    requires c < 0x1_0000_0000_0000_0000
    ensures FourFolds(c) == Ones(c)
  {
    hide Folded, Ones;
    var c1 := Folded(c);
    var c2 := Folded(c1);
    var c3 := Folded(c2);
    FoldShrinks(c);
    FoldShrinks(c1);
    FoldShrinks(c2);
    FoldShrinks(c3);
    FoldedOnes(c);
    FoldedOnes(c1);
    FoldedOnes(c2);
    FoldedOnes(c3);
    OnesIsUnique(FourFolds(c), FourFolds(c));
  }

  /** Three folds leave this accumulator above 16 bits. */
  lemma ThreeFoldsFail()
    ensures exists c :: 0 <= c < 0x1_0000_0000_0000_0000 && Folded(Folded(Folded(c))) >= 65536
  {
    var c := 0xFFFF_FFFF_FFFF_FFFF;
    assert Folded(c) == 0x1_0000_0000_FFFE;
    assert Folded(0x1_0000_0000_FFFE) == 0x1_0000_FFFE;
    assert Folded(0x1_0000_FFFE) == 0x1_FFFE;
    assert Folded(Folded(Folded(c))) >= 65536;
  }

  /** `csum_fold`. */
  method CsumFold(csum: nat) returns (r: nat)
    requires csum < 0x1_0000_0000_0000_0000
    ensures r == 65535 - Ones(csum)
  {
    hide Folded, Ones;
    var c := csum;
    c := Folded(c);
    c := Folded(c);
    c := Folded(c);
    c := Folded(c);
    FourFoldsSuffice(csum);
    r := 65535 - c;
  }

  // ---- Word sums -----------------------------------------------------------

  /** Sum of the big-endian 16-bit words, a last odd byte counting as the high half. */
  function WordSum(b: Bytes): nat
    decreases |b|
  {
    if b == [] then 0
    else if |b| == 1 then 256 * Val(b[0])
    else WordSum(b[..Even(b)]) + (if |b| % 2 == 1 then 256 * Val(b[|b| - 1]) else Be16(b[|b| - 2..]))
  }

  /** Where the last word starts. */
  function Even(b: Bytes): (i: nat)
    requires |b| >= 2
    ensures i < |b| && i % 2 == 0
  {
    if |b| % 2 == 1 then |b| - 1 else |b| - 2
  }

  lemma WordSumStep(b: Bytes, i: nat)
    requires i % 2 == 0 && i + 2 <= |b|
    ensures WordSum(b[..i + 2]) == WordSum(b[..i]) + Be16(b[i..i + 2])
  {
    hide Be16;
    var c := b[..i + 2];
    assert c[..i] == b[..i] && c[i..] == b[i..i + 2];
  }

  lemma WordSumOdd(b: Bytes)
    requires |b| % 2 == 1
    ensures WordSum(b) == WordSum(b[..|b| - 1]) + 256 * Val(b[|b| - 1])
  {
    hide Be16, Val;
    if |b| == 1 {
      assert b[..0] == [];
    }
  }

  lemma WordSumNil()
    ensures WordSum([]) == 0
  {
  }

  /** Replacing the even-placed word at k changes the sum by the difference of the words. */
  lemma {:induction false} WordSumPatch(b: Bytes, c: Bytes, k: nat, i: nat)
    requires |b| == |c| && k % 2 == 0 && k + 2 <= i <= |b| && i % 2 == 0
    requires forall j :: 0 <= j < i && j != k && j != k + 1 ==> b[j] == c[j]
    ensures WordSum(c[..i]) + Be16(b[k..k + 2]) == WordSum(b[..i]) + Be16(c[k..k + 2])
    decreases i
  {
    hide WordSum, Be16;
    WordSumStep(b, i - 2);
    WordSumStep(c, i - 2);
    if i == k + 2 {
      assert b[..k] == c[..k];
    } else {
      WordSumPatch(b, c, k, i - 2);
      assert b[i - 2..i] == c[i - 2..i];
    }
  }

  // ---- The IPv4 header -----------------------------------------------------

  function HeaderBytes(first: Byte): (n: nat)
    ensures n % 2 == 0 && n <= 60
  {
    4 * (Val(first) % 16)
  }

  predicate VersionFour(first: Byte) { Val(first) / 16 == 4 }

  /** What `fix_ipv4_header_checksum` requires of a packet before it touches it. */
  predicate Fillable(b: Bytes, innerLen: nat)
    requires |b| > 0
  {
    20 <= innerLen <= 9000 && VersionFour(b[0]) && 20 <= HeaderBytes(b[0]) <= innerLen
  }

  /** A filled header: complementing the sum of the rest makes the whole sum all ones. */
  lemma FilledSum(s: nat)
    requires s > 0
    ensures Ones(s + (65535 - Ones(s))) == 65535
  {
    hide Ones;
    OnesIsSum(s);
    var t := s + (65535 - Ones(s));
    assert s == M * (s / M) + s % M && Ones(s) == M * (Ones(s) / M) + s % M;
    assert t == M * (s / M - Ones(s) / M + 1);
    assert t % M == 0;
    OnesIsUnique(t, 65535);
  }

  /** Sums the header words as the unrolled loop does. */
  method SumHeader(b: array<Byte>, ihl: nat) returns (sum: nat)
    requires ihl % 2 == 0 && ihl <= 60 && ihl <= b.Length
    ensures sum == WordSum(b[..ihl]) && sum <= 30 * 65535
  {
    hide WordSum, Val;
    sum := 0;
    WordSumNil();
    assert b[..0] == [];
    var i := 0;
    while i < 30 && 2 * i + 1 < ihl
      invariant 0 <= i <= 30 && 2 * i <= ihl
      invariant sum == WordSum(b[..2 * i]) && sum <= i * 65535
    {
      WordSumStep(b[..ihl], 2 * i);
      assert b[..ihl][..2 * i] == b[..2 * i] && b[..ihl][..2 * i + 2] == b[..2 * i + 2];
      assert b[..ihl][2 * i..2 * i + 2] == [b[2 * i], b[2 * i + 1]];
      sum := sum + (256 * Val(b[2 * i]) + Val(b[2 * i + 1]));
      i := i + 1;
    }
  }

  /**
   `fix_ipv4_header_checksum`: afterwards the header words sum to 0xFFFF
   (section 3.1 of RFC 791), and only the checksum field has changed.
   */
  method FixIpv4HeaderChecksum(scratch: array<Byte>, innerLen: nat)
    requires scratch.Length == SCRATCH
    modifies scratch
    ensures !Fillable(old(scratch[..]), innerLen) ==> scratch[..] == old(scratch[..])
    ensures forall i :: 0 <= i < scratch.Length && i != 10 && i != 11 ==> scratch[i] == old(scratch[i])
    ensures Fillable(old(scratch[..]), innerLen) ==> Ones(WordSum(scratch[..HeaderBytes(scratch[0])])) == 65535
  {
    hide WordSum, Val, Ones, Be16, ToByte, VersionFour, HeaderBytes;
    if innerLen < 20 || innerLen > 9000 || !VersionFour(scratch[0]) {
      return;
    }
    var ihl := HeaderBytes(scratch[0]);
    if ihl < 20 || ihl > 60 || ihl > innerLen {
      return;
    }
    scratch[10], scratch[11] := 0, 0;
    var sum := SumHeader(scratch, ihl);
    ghost var zeroed := scratch[..ihl];
    var hc := CsumFold(sum);
    scratch[10], scratch[11] := ToByte(hc / 256), ToByte(hc % 256);
    ghost var filled := scratch[..ihl];
    assert zeroed[10..12] == [0, 0];
    assert filled[10..12] == ToBe16(hc);
    ZeroWord();
    Be16RoundTrip(hc);
    FilledHeader(zeroed, filled, hc);
  }

  /** A header whose zero checksum field is replaced by the complement of its sum. */
  lemma FilledHeader(zeroed: Bytes, filled: Bytes, hc: nat)
    requires |zeroed| == |filled| && 20 <= |zeroed| && |zeroed| % 2 == 0 && VersionFour(zeroed[0])
    requires forall j :: 0 <= j < |zeroed| && j != 10 && j != 11 ==> zeroed[j] == filled[j]
    requires Be16(zeroed[10..12]) == 0 && Be16(filled[10..12]) == hc
    requires hc == 65535 - Ones(WordSum(zeroed))
    ensures Ones(WordSum(filled)) == 65535
  {
    hide WordSum, Ones, Be16, VersionFour;
    var n := |zeroed|;
    assert zeroed[..n] == zeroed && filled[..n] == filled;
    SumPositive(zeroed, n);
    WordSumPatch(zeroed, filled, 10, n);
    FilledSum(WordSum(zeroed));
  }

  lemma ZeroWord()
    ensures Be16([0, 0]) == 0
  {
  }

  /** A header that says version 4 is not all zeros. */
  lemma SumPositive(b: Bytes, ihl: nat)
    requires 20 <= ihl <= |b| && ihl % 2 == 0 && VersionFour(b[0])
    ensures WordSum(b[..ihl]) > 0
  {
    hide WordSum;
    WordSumGrows(b, 2, ihl);
    WordSumStep(b, 0);
    assert b[0..2][0] == b[0];
    assert Be16(b[0..2]) > 0;
  }

  lemma {:induction false} WordSumGrows(b: Bytes, i: nat, j: nat)
    requires i <= j <= |b| && i % 2 == 0 && j % 2 == 0
    ensures WordSum(b[..i]) <= WordSum(b[..j])
    decreases j
  {
    hide WordSum;
    if i < j {
      WordSumGrows(b, i, j - 2);
      WordSumStep(b, j - 2);
    }
  }

  // ---- The ICMP loop -------------------------------------------------------

  /** `icmp_checksum`: a 32-bit accumulator, which wraps in an unchecked build, folded until small. */
  method IcmpChecksum(data: Bytes) returns (r: nat)
    ensures r == 65535 - Ones(Wrapped32(WordSum(data)))
  {
    hide WordSum, Val, Ones, Fold, Wrapped32;
    var sum, i := 0, 0;
    WordSumNil();
    WrappedSmall(0);
    assert data[..0] == [];
    while i + 1 < |data|
      invariant 0 <= i <= |data| && i % 2 == 0 && sum == Wrapped32(WordSum(data[..i]))
    {
      WordSumStep(data, i);
      assert data[i..i + 2] == [data[i], data[i + 1]];
      WrappedAdd(WordSum(data[..i]), 256 * Val(data[i]) + Val(data[i + 1]));
      sum := Wrapped32(sum + (256 * Val(data[i]) + Val(data[i + 1])));
      i := i + 2;
    }
    if i < |data| {
      WordSumOdd(data);
      WrappedAdd(WordSum(data[..i]), 256 * Val(data[i]));
      sum := Wrapped32(sum + 256 * Val(data[i]));
    }
    assert data[..|data|] == data;
    ghost var s := sum;
    while sum / 65536 != 0
      invariant sum >= 0 && Ones(sum) == Ones(s)
      decreases sum
    {
      FoldCongruent(sum);
      OnesCongruent(Fold(sum), sum);
      sum := Fold(sum);
    }
    OnesIsUnique(sum, sum);
    r := 65535 - sum;
  }

  function Wrapped32(n: nat): nat { n % 0x1_0000_0000 }

  lemma WrappedSmall(n: nat)
    requires n < 0x1_0000_0000
    ensures Wrapped32(n) == n
  {
  }

  lemma WrappedAdd(m: nat, n: nat)
    ensures Wrapped32(Wrapped32(m) + n) == Wrapped32(m + n)
  {
    var q, r := m / 0x1_0000_0000, m % 0x1_0000_0000;
    assert m + n == 0x1_0000_0000 * q + (r + n);
  }

  /** The sum stays below 32 bits for messages of up to 65537 words, odd byte included. */
  lemma {:induction false} WordSumBound(b: Bytes)
    ensures WordSum(b) <= 65535 * ((|b| + 1) / 2)
    decreases |b|
  {
    if |b| >= 2 {
      WordSumBound(b[..Even(b)]);
    }
  }

  /** b with a word written at k. */
  function WithWord(b: Bytes, k: nat, n: nat): Bytes
    requires k + 2 <= |b| && n < 65536
  {
    Splice(b, k, ToBe16(n))
  }

  /** A message whose zeroed field is filled with its checksum sums to all ones. */
  lemma IcmpVerifies(data: Bytes, k: nat, r: nat)
    requires |data| <= 131074 && k % 2 == 0 && k + 2 <= |data| && Be16(data[k..k + 2]) == 0
    requires WordSum(data) > 0 && r == 65535 - Ones(Wrapped32(WordSum(data)))
    ensures Ones(WordSum(WithWord(data, k, r))) == 65535
  {
    hide WordSum, Ones, Be16, ToBe16, Wrapped32;
    WordSumBound(data);
    WrappedSmall(WordSum(data));
    var b := WithWord(data, k, r);
    var n := |data| / 2 * 2;
    forall j | 0 <= j < |data| && j != k && j != k + 1 ensures data[j] == b[j] {
    }
    WordSumPatch(data, b, k, n);
    assert b[k..k + 2] == ToBe16(r);
    Be16RoundTrip(r);
    if |data| % 2 == 1 {
      WordSumOdd(data);
      WordSumOdd(b);
      assert data[..n] == data[..|data| - 1] && b[..n] == b[..|data| - 1];
    } else {
      assert data[..n] == data && b[..n] == b;
    }
    FilledSum(WordSum(data));
  }

  // ---- Byte order ----------------------------------------------------------

  /** Sum of the little-endian 16-bit words of an even-sized string: what the kernel adds on this machine. */
  function LeSum(b: Bytes): nat {
    if |b| < 2 then 0 else LeSum(b[..|b| - 2]) + (Val(b[|b| - 2]) + 256 * Val(b[|b| - 1]))
  }

  /** Section 2(B) of RFC 1071: the order of the bytes does not matter to the test for all ones. */
  lemma {:induction false} ByteOrderIndependent(b: Bytes)
    requires |b| % 2 == 0
    ensures LeSum(b) % M == (256 * WordSum(b)) % M
    ensures LeSum(b) == 0 <==> WordSum(b) == 0
  {
    hide WordSum, Val;
    if b == [] {
      WordSumNil();
    } else {
      var i := |b| - 2;
      ByteOrderIndependent(b[..i]);
      WordSumStep(b, i);
      assert b[..i + 2] == b && b[i..i + 2] == [b[i], b[i + 1]];
      SwapCongruent(LeSum(b[..i]), WordSum(b[..i]), Val(b[i]), Val(b[i + 1]));
    }
  }

  lemma SwapCongruent(le: nat, be: nat, x: nat, y: nat)
    requires le % M == (256 * be) % M
    ensures (le + (x + 256 * y)) % M == (256 * (be + (256 * x + y))) % M
  {
    var d := x + 256 * y;
    assert 256 * (be + (256 * x + y)) == 256 * be + d + x * M;
    assert le == M * (le / M) + le % M;
    assert 256 * be == M * (256 * be / M) + le % M;
    Congruent(le / M, le % M + d);
    Congruent(256 * be / M + x, le % M + d);
  }

  lemma OnesOfAllOnes(b: Bytes)
    requires |b| % 2 == 0
    ensures Ones(LeSum(b)) == 65535 <==> Ones(WordSum(b)) == 65535
  {
    hide Ones, LeSum, WordSum;
    ByteOrderIndependent(b);
    var w, l := WordSum(b), LeSum(b);
    OnesIsUnique(w, 65535);
    OnesIsUnique(l, 65535);
    MultipleOf256(w);
  }

  /** 256 has an inverse modulo 65535. */
  lemma MultipleOf256(w: nat)
    ensures (256 * w) % M == 0 <==> w % M == 0
  {
    if w % M == 0 {
      var q := w / M;
      assert w == q * M;
      assert 256 * w == (256 * q) * M + 0;
      Congruent(256 * q, 0);
    }
    if (256 * w) % M == 0 {
      var q := 256 * w / M;
      assert 256 * w == q * M;
      assert 256 * (256 * w) == (256 * q) * M;
      assert 65536 * w == w * M + w;
      assert w == (256 * q - w) * M;
      assert 256 * q - w >= 0;
      Congruent(256 * q - w, 0);
    }
  }

  // ---- The helper-based fill -------------------------------------------------

  /** A little-endian 16-bit word. */
  function LePair(x: Byte, y: Byte): nat { Val(x) + 256 * Val(y) }

  lemma LeSumStep(b: Bytes, i: nat)
    requires i + 2 <= |b|
    ensures LeSum(b[..i + 2]) == LeSum(b[..i]) + LePair(b[i], b[i + 1])
  {
    hide Val;
    var c := b[..i + 2];
    assert c[..i] == b[..i];
  }

  lemma LeSumWord(b: Bytes, i: nat)
    requires 4 * i + 4 <= |b|
    ensures LeSum(b[..4 * i + 4]) == LeSum(b[..4 * i]) + LePair(b[4 * i], b[4 * i + 1])
            + LePair(b[4 * i + 2], b[4 * i + 3])
  {
    hide LeSum, LePair;
    LeSumStep(b, 4 * i);
    LeSumStep(b, 4 * i + 2);
  }

  /** Adds a 32-bit word with end-around carry. */
  function AddCarry(c: nat, w: nat): nat {
    if c + w >= 0x1_0000_0000 then c + w - 0xFFFF_FFFF else c + w
  }

  lemma AddCarryCongruent(c: nat, lo: nat, hi: nat)
    requires c < 0x1_0000_0000 && lo < 65536 && hi < 65536
    ensures var r := AddCarry(c, lo + 65536 * hi);
            r < 0x1_0000_0000 && r % M == (c + lo + hi) % M && (r == 0 <==> c + lo + hi == 0)
  {
    assert lo + 65536 * hi == hi * M + (lo + hi);
    Congruent(hi, c + lo + hi);
    if c + lo + 65536 * hi >= 0x1_0000_0000 {
      var r := c + lo + 65536 * hi - 0xFFFF_FFFF;
      assert 0xFFFF_FFFF == 65537 * M;
      Congruent(65537, r);
    }
  }

  lemma SameSumStep(c: nat, d: nat, lo: nat, hi: nat)
    requires SameSum(c, d) && c < 0x1_0000_0000 && lo < 65536 && hi < 65536
    ensures SameSum(AddCarry(c, lo + 65536 * hi), d + lo + hi) && AddCarry(c, lo + 65536 * hi) < 0x1_0000_0000
  {
    hide AddCarry;
    AddCarryCongruent(c, lo, hi);
    ModAdd(c, d, lo + hi);
  }

  lemma ModAdd(x: nat, y: nat, d: nat)
    requires x % M == y % M
    ensures (x + d) % M == (y + d) % M
  {
    assert x == M * (x / M) + x % M && y == M * (y / M) + y % M;
    Congruent(x / M, x % M + d);
    Congruent(y / M, y % M + d);
  }

  /** `bpf_csum_diff` over one buffer: the 32-bit sum of its native words. */
  method CsumDiff(b: Bytes) returns (c: nat)
    requires |b| % 4 == 0
    ensures c < 0x1_0000_0000 && SameSum(c, LeSum(b))
  {
    hide Val, LeSum, AddCarry, SameSum;
    c := 0;
    var i, n := 0, |b| / 4;
    assert b[..0] == [];
    LeSumNil();
    while i < n
      invariant 0 <= i <= n && c < 0x1_0000_0000 && SameSum(c, LeSum(b[..4 * i]))
    {
      var lo, hi := LePair(b[4 * i], b[4 * i + 1]), LePair(b[4 * i + 2], b[4 * i + 3]);
      LeSumWord(b, i);
      SameSumStep(c, LeSum(b[..4 * i]), lo, hi);
      c := AddCarry(c, lo + 65536 * hi);
      i := i + 1;
    }
    assert b[..4 * n] == b;
  }

  lemma LeSumNil()
    ensures LeSum([]) == 0 && SameSum(0, 0)
  {
  }

  lemma {:induction false} LeSumPatch(b: Bytes, c: Bytes, k: nat, i: nat)
    requires |b| == |c| && k + 2 <= i <= |b| && (i - k) % 2 == 0
    requires forall j :: 0 <= j < i && j != k && j != k + 1 ==> b[j] == c[j]
    ensures LeSum(c[..i]) + LePair(b[k], b[k + 1]) == LeSum(b[..i]) + LePair(c[k], c[k + 1])
    decreases i
  {
    hide LeSum, LePair;
    LeSumStep(b, i - 2);
    LeSumStep(c, i - 2);
    if i == k + 2 {
      assert b[..k] == c[..k];
    } else {
      LeSumPatch(b, c, k, i - 2);
    }
  }

  /** h with its checksum field replaced. */
  function WithSum(h: Bytes, sum: Bytes): (r: Bytes)
    requires |h| == 20 && |sum| == 2
    ensures |r| == 20
  {
    h[..10] + sum + h[12..]
  }

  lemma {:induction false} LeSumGrows(b: Bytes, i: nat)
    requires 2 <= i <= |b| && i % 2 == 0
    ensures LeSum(b[..i]) >= LePair(b[0], b[1])
  {
    hide LeSum, LePair;
    LeSumStep(b, i - 2);
    if i > 2 {
      LeSumGrows(b, i - 2);
    }
  }

  /**
   The checksum step of both programs: `csum_fold(bpf_csum_diff(0, 0, iph, 20, 0))`
   with the field cleared, stored in native order.  The header then sums to
   0xFFFF in network order.
   */
  method NativeChecksum(h: Bytes) returns (sum: Bytes)
    requires |h| == 20 && h[10] == 0 && h[11] == 0
    ensures |sum| == 2
    ensures Val(h[0]) > 0 ==> Ones(WordSum(WithSum(h, sum))) == 65535
  {
    hide Val, LeSum, Ones, WordSum, WithSum, ToByte;
    ZeroVal();
    var c := CsumDiff(h);
    var r := CsumFold(c);
    OnesCongruent(c, LeSum(h));
    sum := [ToByte(r % 256), ToByte(r / 256)];
    if Val(h[0]) > 0 {
      NativeFilled(h, sum, r);
    }
  }

  lemma ZeroVal()
    ensures Val(0) == 0
  {
  }

  lemma NativeFilled(h: Bytes, sum: Bytes, r: nat)
    requires |h| == 20 && LePair(h[0], h[1]) > 0 && LePair(h[10], h[11]) == 0
    requires |sum| == 2 && r == 65535 - Ones(LeSum(h)) && LePair(sum[0], sum[1]) == r
    ensures Ones(WordSum(WithSum(h, sum))) == 65535
  {
    hide LeSum, Ones, WordSum, LePair;
    var f := WithSum(h, sum);
    assert h[..20] == h && f[..20] == f;
    assert f[10] == sum[0] && f[11] == sum[1];
    LeSumPatch(h, f, 10, 20);
    LeSumGrows(h, 20);
    FilledSum(LeSum(h));
    OnesOfAllOnes(f);
  }
}
