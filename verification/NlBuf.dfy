/** The message builder `NlBuf`: a growing byte vector with back-patched lengths. */
module NlBuf {
  import opened Bytes
  import opened Netlink

  type U32 = n: nat | n < 0x1_0000_0000

  function Le32(n: U32): (b: Bytes)
    ensures |b| == 4
  {
    Le16(n % 65536) + Le16(n / 65536)
  }

  function FromLe32(b: Bytes): U32
    requires |b| == 4
  {
    FromLe16(b[..2]) + 65536 * FromLe16(b[2..])
  }

  lemma Le32RoundTrip(n: U32)
    ensures FromLe32(Le32(n)) == n
  {
    hide Le16, FromLe16;
    Le16RoundTrip(n % 65536);
    Le16RoundTrip(n / 65536);
    assert Le32(n)[..2] == Le16(n % 65536) && Le32(n)[2..] == Le16(n / 65536);
  }

  /** The fixed structures in front of nested attributes keep the four-byte alignment. */
  predicate NestsAligned(s: Attrs) {
    match s
    case Nil => true
    case Cons(a, t) => NestAligned(a) && NestsAligned(t)
  }

  predicate NestAligned(a: Attr) {
    a.Nest? ==> Aligned(|a.header|) && NestsAligned(a.children)
  }

  /** d extended by zeros to the next multiple of four. */
  function Padded(d: Bytes): Bytes { d + Zeros(Up4(|d|) - |d|) }

  /** An attribute closed at the end of d: its length patched at `start`, then padded. */
  function Closed(d: Bytes, start: nat): Bytes
    requires start + 4 <= |d|
  {
    Padded(Splice(d, start, Le16((|d| - start) % 65536)))
  }

  /** Begin, payload, end: the record of the payload. */
  lemma ClosedIsRecord(d: Bytes, kind: U16, payload: Bytes)
    requires Aligned(|d|)
    ensures Closed(d + Le16(0) + Le16(kind) + payload, |d|) == d + Record(kind, payload)
  {
    hide Le16, Up4;
    var open, len := d + Le16(0) + Le16(kind) + payload, Le16((4 + |payload|) % 65536);
    ConcatAssoc(d + Le16(0), Le16(kind), payload);
    SpliceParts(d, Le16(0), Le16(kind) + payload, len);
    Up4Shift(|d|, 4 + |payload|);
    assert Aligned(4) by { assert 4 % 4 == 0; }
    Up4Shift(4, |payload|);
    assert Closed(open, |d|) == d + len + (Le16(kind) + payload) + Zeros(Up4(|payload|) - |payload|);
  }

  lemma RecordAligned(kind: U16, payload: Bytes)
    ensures Aligned(|Record(kind, payload)|)
  {
    hide Record;
    Up4Facts(|payload|);
  }

  class Buffer {
    var data: Bytes

    constructor ()
      ensures data == []
    {
      data := [];
    }

    method PushU16(v: U16)
      modifies this
      ensures data == old(data) + Le16(v)
    {
      data := data + Le16(v);
    }

    method PushU32(v: U32)
      modifies this
      ensures data == old(data) + Le32(v)
    {
      data := data + Le32(v);
    }

    method PushBytes(b: Bytes)
      modifies this
      ensures data == old(data) + b
    {
      data := data + b;
    }

    method Align4()
      modifies this
      ensures data == Padded(old(data))
    {
      hide Up4;
      ghost var d := data;
      while |data| % 4 != 0
        invariant |d| <= |data| <= Up4(|d|) && data == d + Zeros(|data| - |d|)
        invariant Up4(|data|) == Up4(|d|)
        decreases Up4(|d|) - |data|
      {
        Up4Facts(|data|);
        assert Zeros(|data| - |d| + 1) == Zeros(|data| - |d|) + [0];
        data := data + [0];
      }
      Up4Facts(|data|);
    }

    method PatchU16At(pos: nat, v: U16)
      requires pos + 2 <= |data|
      modifies this
      ensures data == Splice(old(data), pos, Le16(v))
    {
      data := Splice(data, pos, Le16(v));
    }

    method PatchU32At(pos: nat, v: U32)
      requires pos + 4 <= |data|
      modifies this
      ensures data == Splice(old(data), pos, Le32(v))
    {
      data := Splice(data, pos, Le32(v));
    }

    method RtaBegin(kind: U16) returns (pos: nat)
      modifies this
      ensures pos == |old(data)| && data == old(data) + Le16(0) + Le16(kind)
    {
      pos := |data|;
      PushU16(0);
      PushU16(kind);
    }

    method RtaEnd(start: nat)
      requires start + 4 <= |data|
      modifies this
      ensures data == Closed(old(data), start)
    {
      hide Le16, Padded, Splice;
      PatchU16At(start, (|data| - start) % 65536);
      Align4();
    }

    method WriteAttr(kind: U16, payload: Bytes)
      requires Aligned(|data|)
      modifies this
      ensures data == old(data) + Record(kind, payload)
      ensures Aligned(|data|)
    {
      hide Record, Closed, Le16, Aligned;
      ClosedIsRecord(data, kind, payload);
      AlignedSum(|data|, kind, payload);
      var s := RtaBegin(kind);
      PushBytes(payload);
      RtaEnd(s);
    }

    method WriteStringAttr(kind: U16, s: Bytes)
      requires Aligned(|data|)
      modifies this
      ensures data == old(data) + Record(kind, s + [0])
      ensures Aligned(|data|)
    {
      hide Record, Closed, Le16, Aligned;
      ClosedIsRecord(data, kind, s + [0]);
      AlignedSum(|data|, kind, s + [0]);
      var pos := RtaBegin(kind);
      ConcatAssoc(data, s, [0]);
      PushBytes(s);
      PushBytes([0]);
      RtaEnd(pos);
    }

    /** A nest: begin, fixed structure, attributes, end. */
    method WriteTree(a: Attr)
      requires Aligned(|data|) && NestAligned(a)
      modifies this
      ensures data == old(data) + Record(a.kind, Payload(a))
      ensures Aligned(|data|)
      decreases a
    {
      hide Record, Closed, Le16;
      match a {
        case Leaf(kind, payload) => WriteAttr(kind, payload);
        case Nest(kind, header, children) =>
          ClosedIsRecord(data, kind, Payload(a));
          AlignedSum(|data|, kind, Payload(a));
          var pos := RtaBegin(kind);
          ConcatAssoc(data, header, Encode(children));
          PushBytes(header);
          WriteTrees(children);
          RtaEnd(pos);
      }
    }

    method WriteTrees(s: Attrs)
      requires Aligned(|data|) && NestsAligned(s)
      modifies this
      ensures data == old(data) + Encode(s)
      ensures Aligned(|data|)
      decreases s
    {
      hide Record;
      if s.Cons? {
        ConcatAssoc(data, Record(s.head.kind, Payload(s.head)), Encode(s.tail));
        WriteTree(s.head);
        WriteTrees(s.tail);
      }
    }

    method FinalizeNlmsg()
      requires |data| >= 4
      modifies this
      ensures data == Splice(old(data), 0, Le32(|old(data)| % 0x1_0000_0000))
    {
      PatchU32At(0, |data| % 0x1_0000_0000);
    }
  }

  lemma AlignedSum(n: nat, kind: U16, payload: Bytes)
    requires Aligned(n)
    ensures Aligned(n + |Record(kind, payload)|)
  {
    hide Record;
    RecordAligned(kind, payload);
  }
}
