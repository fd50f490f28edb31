/** Bulk masking: `mask_data` and the kernel's `mask_data_chacha`, against one pointwise keystream. */
module Masking {
  import opened Bytes
  import opened Codec
  import opened ChaCha

  const MAX_PACKET: nat := 9000

  /** The block counter after k increments from zero. */
  function Counter(k: nat): bv32 {
    if k == 0 then 0 else Inc(Counter(k - 1))
  }

  function Inc(c: bv32): bv32 { c + 1 }

  /** Keystream byte i: byte i % 64 of block i / 64. */
  function StreamByte(ks: Keystream, nonce: bv32, i: nat): Byte {
    WordBytes(ks(Counter(i / 64), nonce))[i % 64]
  }

  /** A string masked with the keystream. */
  function Masked(ks: Keystream, nonce: bv32, data: Bytes): (m: Bytes)
    ensures |m| == |data|
    ensures forall i :: 0 <= i < |data| ==> m[i] == XorByte(data[i], StreamByte(ks, nonce, i))
  {
    seq(|data|, i requires 0 <= i < |data| => XorByte(data[i], StreamByte(ks, nonce, i)))
  }

  /** Masking is its own inverse at every length. */
  lemma MaskedTwice(ks: Keystream, nonce: bv32, data: Bytes)
    ensures Masked(ks, nonce, Masked(ks, nonce, data)) == data
  {
    hide XorByte, StreamByte;
    var m := Masked(ks, nonce, Masked(ks, nonce, data));
    forall i | 0 <= i < |data| ensures m[i] == data[i] {
      XorCancels(data[i], StreamByte(ks, nonce, i));
    }
  }

  /** The inner loop of `mask_data`: n keystream bytes at an offset. */
  method XorBlock(data: array<Byte>, offset: nat, n: nat, kb: Bytes)
    requires |kb| == 64 && n <= 64 && offset + n <= data.Length
    modifies data
    ensures forall j :: 0 <= j < data.Length ==>
              data[j] == if offset <= j < offset + n then XorByte(old(data[j]), kb[j - offset]) else old(data[j])
  {
    hide XorByte;
    var i := 0;
    while i < n
      invariant 0 <= i <= n
      invariant forall j :: 0 <= j < data.Length ==>
                  data[j] == if offset <= j < offset + i then XorByte(old(data[j]), kb[j - offset]) else old(data[j])
    {
      data[offset + i] := XorByte(data[offset + i], kb[i]);
      i := i + 1;
    }
  }

  /** The key stream of a 32-byte key, as the Rust blocks compute it. */
  function Generator(key: Bytes, rounds: nat): Keystream
    requires |key| == 32
  {
    (counter: bv32, nonce: bv32) => Block(KeyedInit(key), counter, nonce, RustDoubleRounds(rounds))
  }

  /** `mask_data`: every block is computed from the key. */
  method MaskData(data: array<Byte>, key: Bytes, nonce: bv32, rounds: nat)
    requires |key| == 32
    modifies data
    ensures data[..] == Masked(Generator(key, rounds), nonce, old(data[..]))
  {
    hide XorByte, WordBytes, StreamByte, Inc, Block, KeyedInit;
    ghost var ks := Generator(key, rounds);
    var offset, counter: bv32 := 0, 0;
    ghost var k := 0;
    while offset < data.Length
      invariant offset == 64 * k && 0 <= k && counter == Counter(k)
      invariant forall j :: 0 <= j < data.Length ==>
                  data[j] == if j < offset then XorByte(old(data[j]), StreamByte(ks, nonce, j)) else old(data[j])
    {
      var block := ChachaBlock(key, counter, nonce, rounds);
      var kb := WordBytes(block);
      var n := if data.Length - offset < 64 then data.Length - offset else 64;
      forall j: nat | offset <= j < offset + n ensures StreamByte(ks, nonce, j) == kb[j - offset] {
        StreamBlock(ks, nonce, k, j - offset);
      }
      XorBlock(data, offset, n, kb);
      offset := offset + 64;
      counter := Inc(counter);
      k := k + 1;
    }
  }

  lemma StreamBlock(ks: Keystream, nonce: bv32, k: nat, t: nat)
    requires t < 64
    ensures StreamByte(ks, nonce, 64 * k + t) == WordBytes(ks(Counter(k), nonce))[t]
  {
    hide WordBytes;
    assert (64 * k + t) / 64 == k && (64 * k + t) % 64 == t;
  }

  // ---- Kernel --------------------------------------------------------------

  /** A little-endian word XOR is four byte XORs. */
  lemma WordXorBytes(b: Bytes, w: bv32)
    requires |b| == 4
    ensures var x := LeBytes(XorWord(LeWord(b), w));
            var y := LeBytes(w);
            x[0] == XorByte(b[0], y[0]) && x[1] == XorByte(b[1], y[1]) && x[2] == XorByte(b[2], y[2])
                && x[3] == XorByte(b[3], y[3])
  {
  }

  /** `data[o..o + 4]` read, XORed and written back as one word. */
  method XorWordAt(data: array<Byte>, o: nat, w: bv32)
    requires o + 4 <= data.Length
    modifies data
    ensures forall j :: 0 <= j < data.Length ==>
              data[j] == if o <= j < o + 4 then XorByte(old(data[j]), LeBytes(w)[j - o]) else old(data[j])
  {
    hide LeWord, LeBytes, XorWord, XorByte;
    var b := data[o..o + 4];
    WordXorBytes(b, w);
    var x := LeBytes(XorWord(LeWord(b), w));
    data[o], data[o + 1], data[o + 2], data[o + 3] := x[0], x[1], x[2], x[3];
  }

  /** How far j lies behind off in the scratch buffer, going round its end. */
  function Behind(off: nat, j: nat): (t: nat)
    requires j < SCRATCH
    ensures t < SCRATCH
    ensures off <= j ==> off < SCRATCH && t == j - off
  {
    var o := off % SCRATCH;
    if o <= j then j - o else j + SCRATCH - o
  }

  lemma BehindIs(off: nat, j: nat, t: nat)
    requires j < SCRATCH && t < SCRATCH
    ensures (off + t) % SCRATCH == j <==> Behind(off, j) == t
  {
    var q, o := off / SCRATCH, off % SCRATCH;
    assert off + t == SCRATCH * q + (o + t);
    if o + t >= SCRATCH {
      assert off + t == SCRATCH * (q + 1) + (o + t - SCRATCH);
    }
  }

  /** `xor_ks`: whole words for a full block, masked byte offsets for a tail; offsets go round the end of the buffer. */
  method XorKs(data: array<Byte>, off: nat, n: nat, ks: Words)
    requires data.Length == SCRATCH
    modifies data
    ensures forall j :: 0 <= j < SCRATCH ==>
              data[j] == if Behind(off, j) < n && Behind(off, j) < 64
                         then XorByte(old(data[j]), WordBytes(ks)[Behind(off, j)])
                         else old(data[j])
  {
    hide XorByte, LeBytes, WordBytes, Behind;
    var o := off % SCRATCH;
    if n == 64 && o + 64 <= SCRATCH {
      XorWords(data, o, ks);
      forall j | 0 <= j < SCRATCH ensures Behind(off, j) < 64 <==> o <= j < o + 64
        ensures o <= j ==> Behind(off, j) == j - o
      {
        BehindPlain(off, j);
      }
    } else {
      var kb := WordBytes(ks);
      for j := 0 to 64
        invariant forall t :: 0 <= t < SCRATCH ==>
                    data[t] == if Behind(off, t) < n && Behind(off, t) < j
                               then XorByte(old(data[t]), kb[Behind(off, t)])
                               else old(data[t])
      {
        if j < n {
          var oj := (off + j) % SCRATCH;
          forall t | 0 <= t < SCRATCH ensures Behind(off, t) == j <==> t == oj {
            BehindIs(off, t, j);
          }
          data[oj] := XorByte(data[oj], kb[j]);
        }
      }
    }
  }

  lemma BehindPlain(off: nat, j: nat)
    requires j < SCRATCH && off % SCRATCH + 64 <= SCRATCH
    ensures var o := off % SCRATCH;
            (Behind(off, j) < 64 <==> o <= j < o + 64) && (o <= j ==> Behind(off, j) == j - o)
  {
  }

  /** The sixteen word stores of a full block. */
  method XorWords(data: array<Byte>, o: nat, ks: Words)
    requires data.Length == SCRATCH && o + 64 <= SCRATCH
    modifies data
    ensures forall t :: 0 <= t < SCRATCH ==>
              data[t] == if o <= t < o + 64 then XorByte(old(data[t]), WordBytes(ks)[t - o]) else old(data[t])
  {
    hide XorByte, LeBytes;
    var j := 0;
    while j < 16
      invariant 0 <= j <= 16
      invariant forall t :: 0 <= t < SCRATCH ==>
                  data[t] == if o <= t < o + 4 * j then XorByte(old(data[t]), WordBytes(ks)[t - o]) else old(data[t])
    {
      XorWordAt(data, o + 4 * j, ks[j]);
      forall t | 4 * j <= t < 4 * j + 4 ensures WordBytes(ks)[t] == LeBytes(ks[j])[t - 4 * j] {
        assert t / 4 == j && t % 4 == t - 4 * j;
      }
      j := j + 1;
    }
  }

  /** Prefix of length n masked, the rest left alone. */
  function MaskedPrefix(ks: Keystream, nonce: bv32, data: Bytes, n: nat): Bytes
    requires n <= |data|
  {
    Masked(ks, nonce, data[..n]) + data[n..]
  }

  /** The key stream of the precomputed words, as the kernel's unrolled block computes it. */
  function KernelGenerator(init: Init, rounds: nat): Keystream {
    (counter: bv32, nonce: bv32) => Block(init, counter, nonce, KernelDoubleRounds(rounds))
  }

  /** `mask_data_chacha`: at most 141 callbacks, each for one block. */
  method MaskDataChacha(data: array<Byte>, length: nat, init: Init, nonce: bv32, rounds: nat)
    requires data.Length == SCRATCH && length <= SCRATCH
    modifies data
    ensures data[..] == MaskedPrefix(KernelGenerator(init, rounds), nonce, old(data[..]),
            if length > MAX_PACKET then MAX_PACKET else length)
  {
    hide XorByte, WordBytes, StreamByte, Inc, KernelGenerator;
    ghost var ks := KernelGenerator(init, rounds);
    var len := if length > MAX_PACKET then MAX_PACKET else length;
    var i, block: bv32 := 0, 0;
    var idx := 0;
    while idx < MAX_PACKET / 64 + 1
      invariant 0 <= idx <= MAX_PACKET / 64 + 1
      invariant 0 <= i && (i < len ==> i == 64 * idx && block == Counter(idx))
      invariant forall j :: 0 <= j < SCRATCH ==>
                  data[j] == if j < i && j < len then XorByte(old(data[j]), StreamByte(ks, nonce, j)) else old(data[j])
    {
      if i >= len {
        break;
      }
      Callback(data, i, len, init, block, nonce, rounds, idx);
      block := Inc(block);
      i := i + 64;
      idx := idx + 1;
    }
    ghost var m := MaskedPrefix(ks, nonce, old(data[..]), len);
    forall j | 0 <= j < SCRATCH ensures data[j] == m[j] {
    }
  }

  /** `chacha_loop_cb`: computes one block and masks at offset i, cut at len. */
  method Callback(data: array<Byte>, i: nat, len: nat, init: Init, block: bv32, nonce: bv32, rounds: nat, ghost k: nat)
    requires data.Length == SCRATCH && i < len <= MAX_PACKET
    requires i == 64 * k && block == Counter(k)
    modifies data
    ensures var ks := KernelGenerator(init, rounds);
            forall j :: 0 <= j < SCRATCH ==>
              data[j] == if i <= j < i + 64 && j < len then XorByte(old(data[j]), StreamByte(ks, nonce, j))
                  else old(data[j])
  {
    hide XorByte, WordBytes, StreamByte, Block;
    ghost var ks := KernelGenerator(init, rounds);
    var state := new bv32[16];
    KernelBlock(state, init, block, nonce, rounds);
    var kw: Words := state[..];
    var n := if len - i < 64 then len - i else 64;
    forall j: nat | i <= j < i + n ensures StreamByte(ks, nonce, j) == WordBytes(kw)[j - i] {
      StreamBlock(ks, nonce, k, j - i);
    }
    forall j | 0 <= j < SCRATCH ensures Behind(i % SCRATCH, j) < n <==> i <= j < i + n {
      BehindPlain(i, j);
    }
    XorKs(data, i % SCRATCH, n, kw);
  }

  /**
   The kernel masks a packet as userspace does exactly when it is at most 9000 bytes or the keystream
   is zero beyond.
   */
  lemma KernelMaskAgrees(ks: Keystream, nonce: bv32, data: Bytes)
    ensures MaskedPrefix(ks, nonce, data, if |data| > MAX_PACKET then MAX_PACKET else |data|) == Masked(ks, nonce, data)
            <==> forall i :: MAX_PACKET <= i < |data| ==> StreamByte(ks, nonce, i) == 0
  {
    hide XorByte, StreamByte;
    var n := if |data| > MAX_PACKET then MAX_PACKET else |data|;
    var a, b := MaskedPrefix(ks, nonce, data, n), Masked(ks, nonce, data);
    forall i: nat | i < |data| ensures a[i] == b[i] <==> i < n || StreamByte(ks, nonce, i) == 0 {
      XorFixes(data[i], StreamByte(ks, nonce, i));
    }
    if a == b {
      forall i | MAX_PACKET <= i < |data| ensures StreamByte(ks, nonce, i) == 0 {
        assert a[i] == b[i];
      }
    }
  }

  lemma XorFixes(x: Byte, k: Byte)
    ensures XorByte(x, k) == x <==> k == 0
  {
  }

  // ---- Both sides ------------------------------------------------------------

  lemma SameStream(a: Keystream, b: Keystream, nonce: bv32, data: Bytes)
    requires forall c :: a(c, nonce) == b(c, nonce)
    ensures Masked(a, nonce, data) == Masked(b, nonce, data)
  {
    hide XorByte, WordBytes, Counter;
    forall i: nat | i < |data| ensures StreamByte(a, nonce, i) == StreamByte(b, nonce, i) {
    }
  }

  /**
   With a round count of at most 21, kernel and userspace leave the same bytes of every packet of at
   most 9000 bytes.
   */
  lemma BothMaskAlike(key: Bytes, nonce: bv32, rounds: nat, data: Bytes)
    requires |key| == 32 && rounds <= 21 && |data| <= MAX_PACKET
    ensures MaskedPrefix(KernelGenerator(KeyedInit(key), rounds), nonce, data, |data|)
            == Masked(Generator(key, rounds), nonce, data)
  {
    hide Block, KeyedInit, Masked;
    DoubleRoundsAgree(rounds);
    SameStream(KernelGenerator(KeyedInit(key), rounds), Generator(key, rounds), nonce, data);
    assert data[..|data|] == data && data[|data|..] == [];
  }
}
