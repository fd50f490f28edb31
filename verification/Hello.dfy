/** What `write_quic_long_header` puts around the fields that receivers read: random bytes and a sealed ClientHello. */
module Hello {
  import opened Bytes
  import opened Codec

  const HELLO_AT := 34
  const TAG := 16

  /** Length of the CRYPTO frame for a server name of n bytes, of which at most 32 are used. */
  function FrameLength(n: nat): (l: nat)
    ensures 67 <= l <= 108
  {
    67 + (if n == 0 then 0 else if n > 32 then 41 else n + 9)
  }

  /**
   Clock bytes, second connection id, server name length, the sealed frame with its tag, and the
   header protection mask.
   */
  datatype Hello = Hello(clock: Bytes, scid: bv32, name: nat, frame: Bytes, tag: Bytes, mask: Bytes) {
    predicate Valid() {
      |clock| == 4 && |frame| == FrameLength(name) && |tag| == TAG && |mask| == 16
    }
  }

  function Random(block: Bytes, x: Hello, i: nat): Byte
    requires |block| == 64 && x.Valid()
  {
    XorByte(block[i * 13 % 64], x.clock[i % 4])
  }

  /** The two bytes of the length field: packet number, frame and tag. */
  function LengthHigh(x: Hello): Byte
    requires x.Valid()
  {
    0x40 | ToByte((4 + |x.frame| + TAG) / 256)
  }

  function LengthLow(x: Hello): Byte
    requires x.Valid()
  {
    ToByte((4 + |x.frame| + TAG) % 256)
  }

  /** The length field is the two-byte form of section 16 of RFC 9000, and covers what it announces. */
  lemma LengthField(x: Hello)
    requires x.Valid()
    ensures Val(LengthHigh(x)) / 64 == 1
    ensures Val(LengthHigh(x)) % 64 * 256 + Val(LengthLow(x)) == 20 + |x.frame|
  {
    hide ToByte, Val;
    TwoByteForm((20 + |x.frame|) / 256);
  }

  lemma TwoByteForm(n: nat)
    requires n < 64
    ensures Val(0x40 | ToByte(n)) == 64 + n
  {
    hide ToByte;
    FlagBit(ToByte(n));
  }

  lemma FlagBit(b: Byte)
    requires Val(b) < 64
    ensures Val(0x40 | b) == 64 + Val(b)
  {
    assert b < 64;
    assert 0x40 | b == 64 + b;
  }

  /** Byte i of the filler. */
  function FillByte(block: Bytes, ppn: bv32, x: Hello, i: nat): Byte
    requires |block| == 64 && x.Valid()
  {
    if i == 0 then x.mask[0]
    else if 19 <= i < 23 then LeBytes(x.scid)[i - 19]
    else if i == 28 then LengthHigh(x)
    else if i == 29 then LengthLow(x)
    else if 30 <= i < HELLO_AT then XorByte(BeBytes(ppn)[i - 30], x.mask[i - 29])
    else if HELLO_AT <= i < HELLO_AT + |x.frame| then x.frame[i - HELLO_AT]
    else if HELLO_AT + |x.frame| <= i < HELLO_AT + |x.frame| + TAG then x.tag[i - HELLO_AT - |x.frame|]
    else Random(block, x, i)
  }

  function FillOf(block: Bytes, ppn: bv32, x: Hello): Filler
    requires |block| == 64 && x.Valid()
  {
    seq(LONG_HEADER, i requires 0 <= i < LONG_HEADER => FillByte(block, ppn, x, i))
  }

  lemma FillAt(block: Bytes, ppn: bv32, x: Hello, i: nat)
    requires |block| == 64 && x.Valid() && i < LONG_HEADER
    ensures FillOf(block, ppn, x)[i] == FillByte(block, ppn, x, i)
  {
    hide FillByte;
  }

  /** The filler of the packet that `obfs_encap` sends. */
  function EncapFill(ks: Keystream, wg: Bytes, x: Hello): Filler
    requires x.Valid()
  {
    FillOf(WordBytes(ks(69, Nonce(wg))), ks(47, Nonce(wg))[10], x)
  }
}
