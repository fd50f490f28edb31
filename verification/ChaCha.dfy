/** ChaCha with a configurable round count: the keyed, precomputed and unrolled blocks, and the masking loops. */
module ChaCha {
  import opened Bytes

  function Add(x: bv32, y: bv32): bv32 { x + y }
  function Rotl16(x: bv32): bv32 { (x << 16) | (x >> 16) }
  function Rotl12(x: bv32): bv32 { (x << 12) | (x >> 20) }
  function Rotl8(x: bv32): bv32 { (x << 8) | (x >> 24) }
  function Rotl7(x: bv32): bv32 { (x << 7) | (x >> 25) }

  /** Half a quarter round, with the first pair of rotations. */
  function HalfA(a: bv32, b: bv32, c: bv32, d: bv32): (bv32, bv32, bv32, bv32) {
    var a1 := Add(a, b);
    var d1 := Rotl16(XorWord(d, a1));
    var c1 := Add(c, d1);
    (a1, Rotl12(XorWord(b, c1)), c1, d1)
  }

  /** The other half, with the second pair. */
  function HalfB(a: bv32, b: bv32, c: bv32, d: bv32): (bv32, bv32, bv32, bv32) {
    var a1 := Add(a, b);
    var d1 := Rotl8(XorWord(d, a1));
    var c1 := Add(c, d1);
    (a1, Rotl7(XorWord(b, c1)), c1, d1)
  }

  /** The quarter round on four words. */
  function Quarter(a: bv32, b: bv32, c: bv32, d: bv32): (bv32, bv32, bv32, bv32) {
    var h := HalfA(a, b, c, d);
    HalfB(h.0, h.1, h.2, h.3)
  }

  /** The quarter round on four places of a state. */
  function QuarterAt(s: Words, a: nat, b: nat, c: nat, d: nat): Words
    requires a < 4 <= b < 8 <= c < 12 <= d < 16
  {
    var q := Quarter(s[a], s[b], s[c], s[d]);
    s[a := q.0][b := q.1][c := q.2][d := q.3]
  }

  function Columns(s: Words): Words {
    QuarterAt(QuarterAt(QuarterAt(QuarterAt(s, 0, 4, 8, 12), 1, 5, 9, 13), 2, 6, 10, 14), 3, 7, 11, 15)
  }

  function Diagonals(s: Words): Words {
    QuarterAt(QuarterAt(QuarterAt(QuarterAt(s, 0, 5, 10, 15), 1, 6, 11, 12), 2, 7, 8, 13), 3, 4, 9, 14)
  }

  function DoubleRounds(s: Words, n: nat): Words {
    if n == 0 then s else Diagonals(Columns(DoubleRounds(s, n - 1)))
  }

  type Init = w: seq<bv32> | |w| == 12 witness seq(12, _ => 0)

  function Start(init: Init, counter: bv32, nonce: bv32): Words {
    init + [counter, nonce, 0, 0]
  }

  function AddWords(s: Words, t: Words): (r: Words)
    ensures forall i :: 0 <= i < 16 ==> r[i] == Add(s[i], t[i])
  {
    seq(16, i requires 0 <= i < 16 => Add(s[i], t[i]))
  }

  /** One keystream block with n double rounds. */
  function Block(init: Init, counter: bv32, nonce: bv32, n: nat): Words {
    AddWords(DoubleRounds(Start(init, counter, nonce), n), Start(init, counter, nonce))
  }

  // ---- What the specification computes ---------------------------------------

  /** The test vector of section 2.1.1 of RFC 8439. */
  lemma QuarterVector()
    ensures Quarter(0x11111111, 0x01020304, 0x9b8d6f43, 0x01234567) == (0xea2a92f4, 0xcb1cf8ce, 0x4581472e, 0x5881c4bb)
  {
  }

  lemma QuarterActs(s: Words, a: nat, b: nat, c: nat, d: nat)
    requires a < 4 <= b < 8 <= c < 12 <= d < 16
    ensures var r := QuarterAt(s, a, b, c, d); (r[a], r[b], r[c], r[d]) == Quarter(s[a], s[b], s[c], s[d])
  {
    hide Quarter;
  }

  lemma QuarterKeeps(s: Words, a: nat, b: nat, c: nat, d: nat, e: nat, f: nat, g: nat, h: nat)
    requires a < 4 <= b < 8 <= c < 12 <= d < 16 && e < 4 <= f < 8 <= g < 12 <= h < 16
    requires a != e && b != f && c != g && d != h
    ensures var r := QuarterAt(s, a, b, c, d); r[e] == s[e] && r[f] == s[f] && r[g] == s[g] && r[h] == s[h]
  {
    hide Quarter;
  }

  /** A column round is the quarter round on each column of the state. */
  lemma ColumnsAct(s: Words, k: nat)
    requires k < 4
    ensures var r := Columns(s);
            (r[k], r[4 + k], r[8 + k], r[12 + k]) == Quarter(s[k], s[4 + k], s[8 + k], s[12 + k])
  {
    hide Quarter, QuarterAt;
    var t1 := QuarterAt(s, 0, 4, 8, 12);
    var t2 := QuarterAt(t1, 1, 5, 9, 13);
    var t3 := QuarterAt(t2, 2, 6, 10, 14);
    match k
    case 0 =>
      QuarterActs(s, 0, 4, 8, 12);
      QuarterKeeps(t1, 1, 5, 9, 13, 0, 4, 8, 12);
      QuarterKeeps(t2, 2, 6, 10, 14, 0, 4, 8, 12);
      QuarterKeeps(t3, 3, 7, 11, 15, 0, 4, 8, 12);
    case 1 =>
      QuarterKeeps(s, 0, 4, 8, 12, 1, 5, 9, 13);
      QuarterActs(t1, 1, 5, 9, 13);
      QuarterKeeps(t2, 2, 6, 10, 14, 1, 5, 9, 13);
      QuarterKeeps(t3, 3, 7, 11, 15, 1, 5, 9, 13);
    case 2 =>
      QuarterKeeps(s, 0, 4, 8, 12, 2, 6, 10, 14);
      QuarterKeeps(t1, 1, 5, 9, 13, 2, 6, 10, 14);
      QuarterActs(t2, 2, 6, 10, 14);
      QuarterKeeps(t3, 3, 7, 11, 15, 2, 6, 10, 14);
    case _ =>
      QuarterKeeps(s, 0, 4, 8, 12, 3, 7, 11, 15);
      QuarterKeeps(t1, 1, 5, 9, 13, 3, 7, 11, 15);
      QuarterKeeps(t2, 2, 6, 10, 14, 3, 7, 11, 15);
      QuarterActs(t3, 3, 7, 11, 15);
  }

  /** A diagonal round is the quarter round on each diagonal. */
  lemma DiagonalsAct(s: Words, k: nat)
    requires k < 4
    ensures var r, b, c, d := Diagonals(s), 4 + (k + 1) % 4, 8 + (k + 2) % 4, 12 + (k + 3) % 4;
            (r[k], r[b], r[c], r[d]) == Quarter(s[k], s[b], s[c], s[d])
  {
    hide Quarter, QuarterAt;
    var t1 := QuarterAt(s, 0, 5, 10, 15);
    var t2 := QuarterAt(t1, 1, 6, 11, 12);
    var t3 := QuarterAt(t2, 2, 7, 8, 13);
    match k
    case 0 =>
      QuarterActs(s, 0, 5, 10, 15);
      QuarterKeeps(t1, 1, 6, 11, 12, 0, 5, 10, 15);
      QuarterKeeps(t2, 2, 7, 8, 13, 0, 5, 10, 15);
      QuarterKeeps(t3, 3, 4, 9, 14, 0, 5, 10, 15);
    case 1 =>
      QuarterKeeps(s, 0, 5, 10, 15, 1, 6, 11, 12);
      QuarterActs(t1, 1, 6, 11, 12);
      QuarterKeeps(t2, 2, 7, 8, 13, 1, 6, 11, 12);
      QuarterKeeps(t3, 3, 4, 9, 14, 1, 6, 11, 12);
    case 2 =>
      QuarterKeeps(s, 0, 5, 10, 15, 2, 7, 8, 13);
      QuarterKeeps(t1, 1, 6, 11, 12, 2, 7, 8, 13);
      QuarterActs(t2, 2, 7, 8, 13);
      QuarterKeeps(t3, 3, 4, 9, 14, 2, 7, 8, 13);
    case _ =>
      QuarterKeeps(s, 0, 5, 10, 15, 3, 4, 9, 14);
      QuarterKeeps(t1, 1, 6, 11, 12, 3, 4, 9, 14);
      QuarterKeeps(t2, 2, 7, 8, 13, 3, 4, 9, 14);
      QuarterActs(t3, 3, 4, 9, 14);
  }

  /** The start of a block: the text "expand 32-byte k", eight key words, counter, nonce and two zeros. */
  lemma StartLayout(key: Bytes, counter: bv32, nonce: bv32)
    requires |key| == 32
    ensures var s := Start(KeyedInit(key), counter, nonce);
            && LeBytes(s[0]) == [0x65, 0x78, 0x70, 0x61] && LeBytes(s[1]) == [0x6E, 0x64, 0x20, 0x33]
            && LeBytes(s[2]) == [0x32, 0x2D, 0x62, 0x79] && LeBytes(s[3]) == [0x74, 0x65, 0x20, 0x6B]
            && (forall i :: 4 <= i < 12 ==> LeBytes(s[i]) == key[4 * i - 16..4 * i - 12])
            && s[12] == counter && s[13] == nonce && s[14] == 0 && s[15] == 0
  {
    ConstantText();
    hide LeBytes, LeWord;
    var s := Start(KeyedInit(key), counter, nonce);
    forall i | 4 <= i < 12 ensures LeBytes(s[i]) == key[4 * i - 16..4 * i - 12] {
      KeyedInitAt(key, i - 4);
      LeBytesOfWord(key[4 * i - 16..4 * i - 12]);
    }
  }

  lemma ConstantText()
    ensures LeBytes(0x61707865) == [0x65, 0x78, 0x70, 0x61] && LeBytes(0x3320646e) == [0x6E, 0x64, 0x20, 0x33]
    ensures LeBytes(0x79622d32) == [0x32, 0x2D, 0x62, 0x79] && LeBytes(0x6b206574) == [0x74, 0x65, 0x20, 0x6B]
  {
  }

  /** Without rounds a block is twice its start; each double round is a column round and then a diagonal round. */
  lemma BlockUnfolds(init: Init, counter: bv32, nonce: bv32, n: nat, i: nat)
    requires i < 16
    ensures Block(init, counter, nonce, n)[i]
            == DoubleRounds(Start(init, counter, nonce), n)[i] + Start(init, counter, nonce)[i]
    ensures Block(init, counter, nonce, 0)[i] == Start(init, counter, nonce)[i] + Start(init, counter, nonce)[i]
    ensures DoubleRounds(Start(init, counter, nonce), n + 1)
            == Diagonals(Columns(DoubleRounds(Start(init, counter, nonce), n)))
  {
    hide Columns, Diagonals, Start;
  }

  // ---- In-place rounds -----------------------------------------------------

  /** The first six updates of `qr` and `CHACHA_QR_IDX`. */
  method HalfAInPlace(s: array<bv32>, a: nat, b: nat, c: nat, d: nat)
    requires s.Length == 16 && a < 4 <= b < 8 <= c < 12 <= d < 16
    modifies s
    ensures (s[a], s[b], s[c], s[d]) == HalfA(old(s[a]), old(s[b]), old(s[c]), old(s[d]))
    ensures forall i :: 0 <= i < 16 && i !in {a, b, c, d} ==> s[i] == old(s[i])
  {
    hide Add, XorWord, Rotl16, Rotl12;
    s[a] := Add(s[a], s[b]);
    s[d] := XorWord(s[d], s[a]);
    s[d] := Rotl16(s[d]);
    s[c] := Add(s[c], s[d]);
    s[b] := XorWord(s[b], s[c]);
    s[b] := Rotl12(s[b]);
  }

  /** The last six updates. */
  method HalfBInPlace(s: array<bv32>, a: nat, b: nat, c: nat, d: nat)
    requires s.Length == 16 && a < 4 <= b < 8 <= c < 12 <= d < 16
    modifies s
    ensures (s[a], s[b], s[c], s[d]) == HalfB(old(s[a]), old(s[b]), old(s[c]), old(s[d]))
    ensures forall i :: 0 <= i < 16 && i !in {a, b, c, d} ==> s[i] == old(s[i])
  {
    hide Add, XorWord, Rotl8, Rotl7;
    s[a] := Add(s[a], s[b]);
    s[d] := XorWord(s[d], s[a]);
    s[d] := Rotl8(s[d]);
    s[c] := Add(s[c], s[d]);
    s[b] := XorWord(s[b], s[c]);
    s[b] := Rotl7(s[b]);
  }

  method QuarterInPlace(s: array<bv32>, a: nat, b: nat, c: nat, d: nat)
    requires s.Length == 16 && a < 4 <= b < 8 <= c < 12 <= d < 16
    modifies s
    ensures s[..] == QuarterAt(old(s[..]), a, b, c, d)
  {
    hide HalfA, HalfB;
    HalfAInPlace(s, a, b, c, d);
    HalfBInPlace(s, a, b, c, d);
  }

  method DoubleRoundInPlace(s: array<bv32>)
    requires s.Length == 16
    modifies s
    ensures s[..] == Diagonals(Columns(old(s[..])))
  {
    hide QuarterAt;
    QuarterInPlace(s, 0, 4, 8, 12);
    QuarterInPlace(s, 1, 5, 9, 13);
    QuarterInPlace(s, 2, 6, 10, 14);
    QuarterInPlace(s, 3, 7, 11, 15);
    QuarterInPlace(s, 0, 5, 10, 15);
    QuarterInPlace(s, 1, 6, 11, 12);
    QuarterInPlace(s, 2, 7, 8, 13);
    QuarterInPlace(s, 3, 4, 9, 14);
  }

  /** `(rounds / 2).max(1)`. */
  function RustDoubleRounds(rounds: nat): nat {
    if rounds / 2 < 1 then 1 else rounds / 2
  }

  /** Double rounds kept by the `#if` chain of the kernel. */
  function KernelDoubleRounds(rounds: nat): nat {
    if rounds >= 20 then 10 else if rounds >= 18 then 9 else if rounds >= 16 then 8
    else if rounds >= 14 then 7 else if rounds >= 12 then 6 else if rounds >= 10 then 5
    else if rounds >= 8 then 4 else if rounds >= 6 then 3 else if rounds >= 4 then 2 else 1
  }

  /** Both sides run the same number of double rounds exactly up to round count 21. */
  lemma DoubleRoundsAgree(rounds: nat)
    ensures RustDoubleRounds(rounds) == KernelDoubleRounds(rounds) <==> rounds <= 21
  {
  }

  // ---- The three block functions -------------------------------------------

  /** Constants and key words: `chacha_init`. */
  function KeyedInit(key: Bytes): Init
    requires |key| == 32
  {
    [0x61707865, 0x3320646e, 0x79622d32, 0x6b206574]
    + [LeWord(key[0..4]), LeWord(key[4..8]), LeWord(key[8..12]), LeWord(key[12..16]),
       LeWord(key[16..20]), LeWord(key[20..24]), LeWord(key[24..28]), LeWord(key[28..32])]
  }

  /** Key word i, as the loops over the key read it. */
  lemma KeyedInitAt(key: Bytes, i: nat)
    requires |key| == 32 && i < 8
    ensures KeyedInit(key)[4 + i] == LeWord(key[4 * i..4 * i + 4])
  {
    hide LeWord;
  }

  /** The round loop and the final addition shared by the Rust blocks. */
  method RunRounds(s: array<bv32>, rounds: nat)
    requires s.Length == 16
    modifies s
    ensures s[..] == AddWords(DoubleRounds(old(s[..]), RustDoubleRounds(rounds)), old(s[..]))
  {
    hide Columns, Diagonals, Add;
    var initial := s[..];
    var dr := RustDoubleRounds(rounds);
    var r := 0;
    while r < dr
      invariant 0 <= r <= dr
      invariant s[..] == DoubleRounds(initial, r)
    {
      DoubleRoundInPlace(s);
      r := r + 1;
    }
    ghost var t := s[..];
    var i := 0;
    while i < 16
      invariant 0 <= i <= 16
      invariant forall j :: 0 <= j < i ==> s[j] == Add(t[j], initial[j])
      invariant forall j :: i <= j < 16 ==> s[j] == t[j]
    {
      s[i] := Add(s[i], initial[i]);
      i := i + 1;
    }
  }

  /** `chacha_block`: the state is filled from the 32-byte key. */
  method ChachaBlock(key: Bytes, counter: bv32, nonce: bv32, rounds: nat) returns (ks: Words)
    requires |key| == 32
    ensures ks == Block(KeyedInit(key), counter, nonce, RustDoubleRounds(rounds))
  {
    hide LeWord, DoubleRounds, KeyedInit, AddWords, RustDoubleRounds;
    var s := new bv32[16](_ => 0);
    s[0], s[1], s[2], s[3] := 0x61707865, 0x3320646e, 0x79622d32, 0x6b206574;
    ConstantsOf(key);
    var i := 0;
    while i < 8
      invariant 0 <= i <= 8
      invariant forall j :: 0 <= j < 4 + i ==> s[j] == KeyedInit(key)[j]
    {
      KeyedInitAt(key, i);
      s[4 + i] := LeWord(key[i * 4..(i + 1) * 4]);
      i := i + 1;
    }
    s[12] := counter;
    s[13] := nonce;
    s[14] := 0;
    s[15] := 0;
    assert s[..] == Start(KeyedInit(key), counter, nonce);
    RunRounds(s, rounds);
    ks := s[..];
  }

  lemma ConstantsOf(key: Bytes)
    requires |key| == 32
    ensures var k := KeyedInit(key);
            k[0] == 0x61707865 && k[1] == 0x3320646e && k[2] == 0x79622d32 && k[3] == 0x6b206574
  {
    hide LeWord;
  }

  /** `chacha_block_fast`: constants and key words come precomputed. */
  method ChachaBlockFast(init: Init, counter: bv32, nonce: bv32, rounds: nat) returns (ks: Words)
    ensures ks == Block(init, counter, nonce, RustDoubleRounds(rounds))
  {
    hide DoubleRounds;
    var s := new bv32[16](_ => 0);
    forall i | 0 <= i < 12 { s[i] := init[i]; }
    s[12] := counter;
    s[13] := nonce;
    s[14] := 0;
    s[15] := 0;
    assert s[..] == Start(init, counter, nonce);
    RunRounds(s, rounds);
    ks := s[..];
  }

  lemma AddZero(x: bv32)
    ensures Add(x, 0) == x
  {
  }

  /** The kernel's `chacha_block`: no state of its own, unrolled rounds, the start re-read for the addition. */
  method KernelBlock(ks: array<bv32>, init: Init, counter: bv32, nonce: bv32, rounds: nat)
    requires ks.Length == 16
    modifies ks
    ensures ks[..] == Block(init, counter, nonce, KernelDoubleRounds(rounds))
  {
    hide Columns, Diagonals, Add;
    forall i | 0 <= i < 12 { ks[i] := init[i]; }
    ks[12] := counter;
    ks[13] := nonce;
    ks[14] := 0;
    ks[15] := 0;
    ghost var s := Start(init, counter, nonce);
    assert ks[..] == s;
    DoubleRoundInPlace(ks);
    assert ks[..] == DoubleRounds(s, 1);
    UnrolledRounds(ks, s, rounds);
    ghost var t := ks[..];
    forall i | 0 <= i < 12 { ks[i] := Add(ks[i], init[i]); }
    ks[12] := Add(ks[12], counter);
    ks[13] := Add(ks[13], nonce);
    AddZero(t[14]);
    AddZero(t[15]);
  }

  /** The `#if` chain after the first double round. */
  method UnrolledRounds(ks: array<bv32>, ghost s: Words, rounds: nat)
    requires ks.Length == 16 && ks[..] == DoubleRounds(s, 1)
    modifies ks
    ensures ks[..] == DoubleRounds(s, KernelDoubleRounds(rounds))
  {
    hide Columns, Diagonals;
    if rounds >= 4 { DoubleRoundInPlace(ks); assert ks[..] == DoubleRounds(s, 2); }
    if rounds >= 6 { DoubleRoundInPlace(ks); assert ks[..] == DoubleRounds(s, 3); }
    if rounds >= 8 { DoubleRoundInPlace(ks); assert ks[..] == DoubleRounds(s, 4); }
    if rounds >= 10 { DoubleRoundInPlace(ks); assert ks[..] == DoubleRounds(s, 5); }
    if rounds >= 12 { DoubleRoundInPlace(ks); assert ks[..] == DoubleRounds(s, 6); }
    if rounds >= 14 { DoubleRoundInPlace(ks); assert ks[..] == DoubleRounds(s, 7); }
    if rounds >= 16 { DoubleRoundInPlace(ks); assert ks[..] == DoubleRounds(s, 8); }
    if rounds >= 18 { DoubleRoundInPlace(ks); assert ks[..] == DoubleRounds(s, 9); }
    if rounds >= 20 { DoubleRoundInPlace(ks); assert ks[..] == DoubleRounds(s, 10); }
  }
}
