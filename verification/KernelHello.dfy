/**
 The kernel's `write_quic_long_header`: a fixed 128-byte frame sealed in place, under the same fields
 as userspace.
 */
module KernelHello {
  import opened Bytes
  import opened Codec
  import opened Hello
  import opened Gf128
  import opened Ghash
  import opened Gcm
  import opened Proxy

  const FRAME := 128
  const TAG_FIELD := HELLO_AT + FRAME
  const TAIL := TAG_FIELD + TAG

  /** Clock bytes, second connection id, the sealed frame with its tag, and the header protection mask. */
  datatype Sealed = Sealed(clock: Bytes, scid: bv32, frame: Bytes, tag: Bytes, mask: Bytes) {
    predicate Valid() {
      |clock| == 4 && |frame| == FRAME && |tag| == TAG && |mask| == 16
    }
  }

  /** The random bytes behind the tag. */
  function TailByte(block: Bytes, clock: Bytes, i: nat): Byte
    requires |block| == 64 && |clock| == 4
  {
    XorByte(block[i * 7 % 64], clock[i % 4])
  }

  /** Byte i of the kernel's filler; the length field always says 148. */
  function KernelByte(block: Bytes, ppn: bv32, x: Sealed, i: nat): Byte
    requires |block| == 64 && x.Valid()
  {
    if i == 0 then x.mask[0]
    else if 19 <= i < 23 then LeBytes(x.scid)[i - 19]
    else if i == 28 then 0x40
    else if i == 29 then 0x94
    else if 30 <= i < HELLO_AT then XorByte(BeBytes(ppn)[i - 30], x.mask[i - 29])
    else if HELLO_AT <= i < TAG_FIELD then x.frame[i - HELLO_AT]
    else if TAG_FIELD <= i < TAIL then x.tag[i - TAG_FIELD]
    else TailByte(block, x.clock, i)
  }

  function KernelFillOf(block: Bytes, ppn: bv32, x: Sealed): Filler
    requires |block| == 64 && x.Valid()
  {
    seq(LONG_HEADER, i requires 0 <= i < LONG_HEADER => KernelByte(block, ppn, x, i))
  }

  lemma KernelFillAt(block: Bytes, ppn: bv32, x: Sealed, i: nat)
    requires |block| == 64 && x.Valid() && i < LONG_HEADER
    ensures KernelFillOf(block, ppn, x)[i] == KernelByte(block, ppn, x, i)
  {
    hide KernelByte;
  }

  /** The filler of the packet that the kernel sends. */
  function KernelFill(ks: Keystream, wg: Bytes, x: Sealed): Filler
    requires x.Valid()
  {
    KernelFillOf(WordBytes(ks(69, Nonce(wg))), ks(47, Nonce(wg))[10], x)
  }

  // ---- What the two sides share ------------------------------------------------

  /** No name makes the userspace length field say what the kernel's does, so the fillers always differ. */
  lemma LengthsDiffer(block: Bytes, ppn: bv32, x: Hello, y: Sealed)
    requires |block| == 64 && x.Valid() && y.Valid()
    ensures FillOf(block, ppn, x)[29] != KernelFillOf(block, ppn, y)[29]
  {
    hide FillOf, KernelFillOf, ToByte, Val, Random, TailByte, BeBytes, LeBytes, XorByte;
    FillAt(block, ppn, x, 29);
    KernelFillAt(block, ppn, y, 29);
    LengthValue();
    assert (4 + |x.frame| + TAG) % 256 < 148;
  }

  lemma LengthValue()
    ensures Val(0x94) == 148
  {
  }

  /** Whatever the fillers, two long headers agree on every bit that a receiver reads. */
  lemma ReadAlike(ty: Byte, fixed: Words, ppn: bv32, ports: bv32, pad: nat, f: Filler, g: Filler)
    requires pad <= 64
    ensures var a, b := LongHeader(ty, fixed, ppn, ports, pad, f), LongHeader(ty, fixed, ppn, ports, pad, g);
            && HighNibble(a[0]) == HighNibble(b[0]) && a[1..19] == b[1..19] && a[23..28] == b[23..28]
            && a[LONG_HEADER - 1] == b[LONG_HEADER - 1]
  {
    hide LeBytes, BallastCode, LongFlags, HighNibble, FrontWith;
    var a, b := LongHeader(ty, fixed, ppn, ports, pad, f), LongHeader(ty, fixed, ppn, ports, pad, g);
    var u, v := LongFront(ty, fixed, ppn, ports, f), LongFront(ty, fixed, ppn, ports, g);
    SameNibble(ty, f, g);
    FirstFlag(LongFlags(ty, f), fixed, ppn, ports, f[19..23]);
    FirstFlag(LongFlags(ty, g), fixed, ppn, ports, g[19..23]);
    FrontRead(LongFlags(ty, f), LongFlags(ty, g), fixed, ppn, ports, f[19..23], g[19..23]);
    assert a[..28] == u && b[..28] == v;
    SliceOfPrefix(a, 28, 1, 19);
    SliceOfPrefix(b, 28, 1, 19);
    SliceOfPrefix(a, 28, 23, 28);
    SliceOfPrefix(b, 28, 23, 28);
  }

  function HighNibble(b: Byte): Byte { b & 0xF0 }

  lemma SameNibble(ty: Byte, f: Filler, g: Filler)
    ensures HighNibble(LongFlags(ty, f)) == HighNibble(LongFlags(ty, g))
  {
    NibbleKept(BaseFlags(ty), f[0]);
    NibbleKept(BaseFlags(ty), g[0]);
  }

  lemma NibbleKept(flags: Byte, mask: Byte)
    ensures HighNibble(Protected(flags, mask)) == HighNibble(flags)
  {
  }

  lemma FrontRead(a: Byte, b: Byte, fixed: Words, ppn: bv32, ports: bv32, h: Bytes, k: Bytes)
    requires |h| == |k| == 4
    ensures var u, v := FrontWith(a, fixed, ppn, ports, h), FrontWith(b, fixed, ppn, ports, k);
            u[1..19] == v[1..19] && u[23..28] == v[23..28]
  {
    hide LeBytes;
    var v := FrontWith(a, fixed, ppn, ports, k);
    var ids := [a, 0x00, 0x00, 0x00, 0x01] + [0x08] + LeBytes(fixed[0]) + LeBytes(fixed[1]) + [0x08] + LeBytes(ppn);
    AroundHash(ids, h, LeBytes(ports));
    AroundHash(ids, k, LeBytes(ports));
    NewFlags(a, b, fixed, ppn, ports, k);
    assert v[0 := b][1..19] == v[1..19] && v[0 := b][23..28] == v[23..28];
  }

  lemma AroundHash(ids: Bytes, h: Bytes, ports: Bytes)
    requires |ids| == 19 && |h| == |ports| == 4
    ensures var u := ids + h + [0x04] + ports; u[1..19] == ids[1..] && u[23..28] == [0x04] + ports
  {
  }

  // ---- The program ----------------------------------------------------------------

  /** The packet number added to the end of the initialisation vector (section 5.3 of RFC 9001). */
  function AeadNonce(iv: Iv, ppn: bv32): Iv {
    var n := BeBytes(ppn);
    iv[..8] + [XorByte(iv[8], n[0]), XorByte(iv[9], n[1]), XorByte(iv[10], n[2]), XorByte(iv[11], n[3])]
  }

  /** The header before protection. */
  function Aad(ty: Byte, fixed: Words, ppn: bv32, ports: bv32, scid: bv32): (a: Bytes)
    ensures |a| == AAD_LEN
  {
    FrontWith(BaseFlags(ty), fixed, ppn, ports, LeBytes(scid)) + [0x40, 0x94] + BeBytes(ppn)
  }

  /** Random bytes over the first 64, the fields, the length and the packet number. */
  method WriteUnprotected(hdr: array<Byte>, ty: Byte, fixed: Words, ppn: bv32, ports: bv32, block: Bytes, clock: Bytes,
                          scid: bv32)
    requires hdr.Length == LONG_HEADER && |block| == 64 && |clock| == 4
    modifies hdr
    ensures hdr[..HELLO_AT] == Aad(ty, fixed, ppn, ports, scid)
  {
    hide XorByte, FrontWith, BeBytes, LeBytes, BaseFlags;
    for i := 0 to 64 {
      hdr[i] := XorByte(block[i * 13 % 64], clock[i % 4]);
    }
    WriteLongFront(hdr, ty, fixed, ppn, ports, scid);
    ghost var front := hdr[..28];
    hdr[28] := 0x40;
    hdr[29] := 0x94;
    Store(hdr, 30, BeBytes(ppn));
    assert hdr[..28] == front && hdr[28..30] == [0x40, 0x94];
    Cut(hdr[..], 28, 30);
    Cut(hdr[..], 30, HELLO_AT);
  }

  /** The loop over the bytes behind the tag. */
  method WriteTail(hdr: array<Byte>, block: Bytes, clock: Bytes)
    requires hdr.Length == LONG_HEADER && |block| == 64 && |clock| == 4
    modifies hdr
    ensures forall i :: TAIL <= i < LONG_HEADER - 1 ==> hdr[i] == TailByte(block, clock, i)
    ensures forall i :: 0 <= i < LONG_HEADER && !(TAIL <= i < LONG_HEADER - 1) ==> hdr[i] == old(hdr[i])
  {
    hide TailByte;
    for i := TAIL to LONG_HEADER - 1
      invariant forall j :: TAIL <= j < i ==> hdr[j] == TailByte(block, clock, j)
      invariant forall j :: 0 <= j < LONG_HEADER && !(TAIL <= j < i) ==> hdr[j] == old(hdr[j])
    {
      hdr[i] := TailByte(block, clock, i);
    }
  }

  /** The frame sealed in a buffer of its own. */
  method Seal(aes: Cipher, nonce: Iv, aad: Bytes, plain: Bytes) returns (frame: Bytes, tag: Block)
    requires |aad| == AAD_LEN && |plain| == FRAME
    ensures frame == Ctr(aes, nonce, plain) && Bits(tag) == Tag(aes, nonce, aad, frame)
  {
    hide Bits, Gcm.Tag, Ctr;
    var cf := new Byte[CT_LEN](i requires 0 <= i < CT_LEN => plain[i]);
    var scratch := new Byte[100];
    assert cf[..] == plain;
    KernelSeal(aes, nonce, aad, cf, scratch);
    frame, tag := cf[..], scratch[TAG_AT..TAG_AT + 16];
  }

  /**
   `write_quic_long_header` of the kernel: the header carries the fields that
   receivers read, the frame is sealed over the unprotected header, and the
   mask is drawn from the sealed frame.
   */
  method KernelLongHeader(hdr: array<Byte>, ty: Byte, fixed: Words, ppn: bv32, ports: bv32, pad: nat, block: Bytes,
                          clock: Bytes, scid: bv32, iv: Iv, plain: Bytes, aes: Cipher, hp: Cipher)
    returns (x: Sealed)
    requires hdr.Length == LONG_HEADER && pad <= 64 && |block| == 64 && |clock| == 4 && |plain| == FRAME
    modifies hdr
    ensures x.Valid() && x.clock == clock && x.scid == scid
    ensures hdr[..] == LongHeader(ty, fixed, ppn, ports, pad, KernelFillOf(block, ppn, x))
    ensures x.frame == Ctr(aes, AeadNonce(iv, ppn), plain) && x.mask == hp(x.frame[..16])
    ensures Bits(x.tag) == Tag(aes, AeadNonce(iv, ppn), Aad(ty, fixed, ppn, ports, scid), x.frame)
  {
    hide XorByte, FrontWith, BeBytes, LeBytes, BaseFlags, Protected, Bits, Gcm.Tag, Ctr, AeadNonce, TailByte;
    hide KernelFillOf, KernelByte, LongHeader, BallastCode;
    WriteUnprotected(hdr, ty, fixed, ppn, ports, block, clock, scid);
    ghost var front := hdr[..28];
    FirstFlag(BaseFlags(ty), fixed, ppn, ports, LeBytes(scid));
    var frame, tag := Seal(aes, AeadNonce(iv, ppn), hdr[..HELLO_AT], plain);
    var mask := hp(frame[..16]);
    x := Sealed(clock, scid, frame, tag, mask);
    WriteBody(hdr, ty, fixed, ppn, ports, block, x);
    hdr[0] := Protected(hdr[0], mask[0]);
    hdr[LONG_HEADER - 1] := BallastCode(pad);
    AssembledKernel(hdr[..], front, ty, fixed, ppn, ports, pad, block, x);
  }

  /** Frame, tag, masked packet number and tail behind an unprotected header. */
  method WriteBody(hdr: array<Byte>, ghost ty: Byte, ghost fixed: Words, ghost ppn: bv32, ghost ports: bv32,
                   block: Bytes,
                   x: Sealed)
    requires hdr.Length == LONG_HEADER && |block| == 64 && x.Valid()
    requires hdr[..HELLO_AT] == Aad(ty, fixed, ppn, ports, x.scid)
    modifies hdr
    ensures hdr[..28] == old(hdr[..28])
    ensures forall i :: 28 <= i < LONG_HEADER - 1 ==> hdr[i] == KernelByte(block, ppn, x, i)
  {
    hide XorByte, FrontWith, BeBytes, LeBytes, BaseFlags, TailByte, KernelByte;
    ghost var a := Aad(ty, fixed, ppn, ports, x.scid);
    NumberField(ty, fixed, ppn, ports, x.scid);
    KernelFillRegions(block, ppn, x);
    forall i | 28 <= i < HELLO_AT ensures hdr[i] == a[i] {
      assert hdr[i] == hdr[..HELLO_AT][i];
    }
    Store(hdr, HELLO_AT, x.frame);
    forall i | HELLO_AT <= i < TAG_FIELD ensures hdr[i] == x.frame[i - HELLO_AT] {
      assert hdr[i] == hdr[HELLO_AT..TAG_FIELD][i - HELLO_AT];
    }
    Store(hdr, TAG_FIELD, x.tag);
    forall i | TAG_FIELD <= i < TAIL ensures hdr[i] == x.tag[i - TAG_FIELD] {
      assert hdr[i] == hdr[TAG_FIELD..TAIL][i - TAG_FIELD];
    }
    MaskNumber(hdr, x.mask);
    WriteTail(hdr, block, x.clock);
    assert hdr[..28] == old(hdr[..28]);
  }

  lemma NumberField(ty: Byte, fixed: Words, ppn: bv32, ports: bv32, scid: bv32)
    ensures var a := Aad(ty, fixed, ppn, ports, scid);
            a[28] == 0x40 && a[29] == 0x94 && forall i :: 30 <= i < HELLO_AT ==> a[i] == BeBytes(ppn)[i - 30]
  {
    hide FrontWith, BeBytes, LeBytes;
  }

  /** The filler by region. */
  lemma KernelFillRegions(block: Bytes, ppn: bv32, x: Sealed)
    requires |block| == 64 && x.Valid()
    ensures KernelByte(block, ppn, x, 28) == 0x40 && KernelByte(block, ppn, x, 29) == 0x94
    ensures forall i :: 30 <= i < HELLO_AT ==>
              KernelByte(block, ppn, x, i) == XorByte(BeBytes(ppn)[i - 30], x.mask[i - 29])
    ensures forall i :: HELLO_AT <= i < TAG_FIELD ==> KernelByte(block, ppn, x, i) == x.frame[i - HELLO_AT]
    ensures forall i :: TAG_FIELD <= i < TAIL ==> KernelByte(block, ppn, x, i) == x.tag[i - TAG_FIELD]
    ensures forall i :: TAIL <= i < LONG_HEADER ==> KernelByte(block, ppn, x, i) == TailByte(block, x.clock, i)
  {
    hide TailByte, BeBytes, LeBytes, XorByte;
  }

  lemma AssembledKernel(b: Bytes, front: Bytes, ty: Byte, fixed: Words, ppn: bv32, ports: bv32, pad: nat, block: Bytes,
                        x: Sealed)
    requires pad <= 64 && |b| == LONG_HEADER && |block| == 64 && x.Valid()
    requires front == FrontWith(BaseFlags(ty), fixed, ppn, ports, LeBytes(x.scid))
    requires b[..28] == front[0 := Protected(BaseFlags(ty), x.mask[0])]
    requires forall i :: 28 <= i < LONG_HEADER - 1 ==> b[i] == KernelByte(block, ppn, x, i)
    requires b[LONG_HEADER - 1] == BallastCode(pad)
    ensures b == LongHeader(ty, fixed, ppn, ports, pad, KernelFillOf(block, ppn, x))
  {
    hide LeBytes, BallastCode, KernelFillOf, BaseFlags, Protected, TailByte, FrontWith, LongHeader;
    var fill := KernelFillOf(block, ppn, x);
    KernelFillAt(block, ppn, x, 0);
    forall i | 19 <= i < 23 ensures fill[i] == LeBytes(x.scid)[i - 19] {
      KernelFillAt(block, ppn, x, i);
    }
    assert fill[19..23] == LeBytes(x.scid);
    forall i | 28 <= i < LONG_HEADER - 1 ensures b[i] == fill[i] {
      KernelFillAt(block, ppn, x, i);
    }
    AssembledFrom(b, front, ty, fixed, ppn, ports, pad, LeBytes(x.scid), fill);
  }
}
