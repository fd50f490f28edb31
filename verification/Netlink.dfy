/**
 Routing attributes (section 2.2 of RFC 3549): the byte form of an attribute tree, and the walk that
 reads it back.
 */
module Netlink {
  import opened Bytes

  type U16 = n: nat | n < 65536

  /** A 16-bit word in host order, little-endian on every supported target. */
  function Le16(n: U16): (b: Bytes)
    ensures |b| == 2
  {
    [ToByte(n % 256), ToByte(n / 256)]
  }

  function FromLe16(b: Bytes): (n: U16)
    requires |b| == 2
  {
    Val(b[0]) + 256 * Val(b[1])
  }

  lemma Le16RoundTrip(n: U16)
    ensures FromLe16(Le16(n)) == n
  {
    hide Val, ToByte;
  }

  /** `(n + 3) & !3`. */
  function Up4(n: nat): (r: nat)
    ensures n <= r < n + 4
  {
    4 * ((n + 3) / 4)
  }

  predicate Aligned(n: nat) { n % 4 == 0 }

  lemma Up4Facts(n: nat)
    ensures Aligned(Up4(n))
    ensures Aligned(n) ==> Up4(n) == n
    ensures !Aligned(n) ==> Up4(n + 1) == Up4(n)
  {
  }

  lemma Up4Shift(d: nat, n: nat)
    requires Aligned(d)
    ensures Up4(d + n) == d + Up4(n)
  {
    var k := d / 4;
    assert (d + n + 3) / 4 == k + (n + 3) / 4;
  }

  lemma HeaderShift(n: nat)
    requires 4 + n < 65536
    ensures Up4((4 + n) % 65536) == 4 + Up4(n)
  {
    hide Up4;
    Up4Shift(4, n);
  }

  // ---- Attribute trees -------------------------------------------------------

  /** A nest may begin with a fixed structure before its attributes. */
  datatype Attr = Leaf(kind: U16, data: Bytes) | Nest(kind: U16, header: Bytes, children: Attrs)
  datatype Attrs = Nil | Cons(head: Attr, tail: Attrs)

  function Payload(a: Attr): Bytes {
    match a
    case Leaf(_, data) => data
    case Nest(_, header, children) => header + Encode(children)
  }

  /** Length, kind, payload, padding; the length is truncated to 16 bits. */
  function Record(kind: U16, payload: Bytes): (r: Bytes)
    ensures |r| == 4 + Up4(|payload|)
  {
    Le16((4 + |payload|) % 65536) + Le16(kind) + payload + Zeros(Up4(|payload|) - |payload|)
  }

  function Encode(s: Attrs): Bytes {
    match s
    case Nil => []
    case Cons(a, t) => Record(a.kind, Payload(a)) + Encode(t)
  }

  /** The attribute's length fits its field. */
  predicate Fits(a: Attr) { 4 + |Payload(a)| < 65536 }

  predicate AllFit(s: Attrs) { s.Nil? || (Fits(s.head) && AllFit(s.tail)) }

  /** The parts of a nest that fits fit as well. */
  lemma {:induction false} FitsInside(s: Attrs, n: nat)
    requires |Encode(s)| <= n < 65536
    ensures AllFit(s)
  {
    if s.Cons? {
      FitsInside(s.tail, n);
    }
  }

  // ---- The walk ----------------------------------------------------------------

  datatype Item = Item(kind: U16, payload: Bytes)

  function Items(s: Attrs): seq<Item> {
    match s
    case Nil => []
    case Cons(a, t) => [Item(a.kind, Payload(a))] + Items(t)
  }

  function Size(s: seq<Item>): nat {
    if s == [] then 0 else 4 + |s[0].payload| + Size(s[1..])
  }

  function LenAt(m: Bytes, off: nat): U16
    requires off + 4 <= |m|
  {
    FromLe16(m[off..off + 2])
  }

  function ItemAt(m: Bytes, off: nat): Item
    requires off + 4 <= |m| && 4 <= LenAt(m, off) <= |m| - off
  {
    Item(FromLe16(m[off + 2..off + 4]), m[off + 4..off + LenAt(m, off)])
  }

  /** Another attribute lies at `off`. */
  predicate More(m: Bytes, off: nat) {
    off + 4 <= |m| && 4 <= LenAt(m, off) <= |m| - off
  }

  /** The attributes met from `off` to the end of the message. */
  function Walk(m: Bytes, off: nat): seq<Item>
    decreases if off <= |m| then |m| - off else 0
  {
    if More(m, off) then [ItemAt(m, off)] + Walk(m, off + Up4(LenAt(m, off))) else []
  }

  lemma WalkStep(m: Bytes, off: nat)
    ensures More(m, off) ==> Walk(m, off) == [ItemAt(m, off)] + Walk(m, off + Up4(LenAt(m, off)))
    ensures !More(m, off) ==> Walk(m, off) == []
  {
    hide More, ItemAt, LenAt, Up4;
  }

  /** The item is the slice of the message that its own length field delimits, at stop o. */
  predicate IsSlice(m: Bytes, o: nat, i: Item) {
    && o + 4 + |i.payload| <= |m| && LenAt(m, o) == 4 + |i.payload|
    && i.kind == FromLe16(m[o + 2..o + 4]) && i.payload == m[o + 4..o + 4 + |i.payload|]
  }

  /**
   The items lie in the message one behind the other from `off`, each on the next multiple of four,
   until none fits.
   */
  predicate Tiled(m: Bytes, off: nat, w: seq<Item>)
    decreases |w|
  {
    if w == [] then !More(m, off)
    else IsSlice(m, off, w[0]) && Tiled(m, off + Up4(4 + |w[0].payload|), w[1..])
  }

  /** The walk returns exactly that tiling of the message. */
  lemma {:induction false} WalkIsTiling(m: Bytes, off: nat, w: seq<Item>)
    ensures w == Walk(m, off) <==> Tiled(m, off, w)
    decreases |w|
  {
    hide LenAt, FromLe16, Up4, Walk, ItemAt, IsSlice;
    WalkStep(m, off);
    if w != [] {
      SliceIsItem(m, off, w[0]);
      WalkIsTiling(m, off + Up4(4 + |w[0].payload|), w[1..]);
      assert w == [w[0]] + w[1..];
      if More(m, off) {
        ItemLength(m, off);
        FrontAndRest(w, ItemAt(m, off), Walk(m, off + Up4(LenAt(m, off))));
      }
    }
  }

  lemma FrontAndRest(w: seq<Item>, i: Item, rest: seq<Item>)
    requires w != []
    ensures w == [i] + rest <==> w[0] == i && w[1..] == rest
  {
    assert w == [w[0]] + w[1..];
    assert ([i] + rest)[1..] == rest;
  }

  lemma SliceIsItem(m: Bytes, off: nat, i: Item)
    ensures IsSlice(m, off, i) <==> More(m, off) && i == ItemAt(m, off)
  {
    hide FromLe16, LenAt;
  }

  /** Hence what it returns is no longer than the message. */
  lemma {:induction false} WalkInside(m: Bytes, off: nat)
    ensures Size(Walk(m, off)) <= if off <= |m| then |m| - off else 0
    decreases if off <= |m| then |m| - off else 0
  {
    if More(m, off) {
      WalkInside(m, off + Up4(LenAt(m, off)));
    }
  }

  lemma RecordParts(pre: Bytes, kind: U16, payload: Bytes, post: Bytes)
    ensures var m := pre + (Record(kind, payload) + post);
            && |m| == |pre| + 4 + Up4(|payload|) + |post|
            && m[|pre|..|pre| + 2] == Le16((4 + |payload|) % 65536)
            && m[|pre| + 2..|pre| + 4] == Le16(kind)
            && m[|pre| + 4..|pre| + 4 + |payload|] == payload
  {
    hide Le16, Up4;
    var m := pre + (Record(kind, payload) + post);
    var r := Record(kind, payload);
    assert m == pre + r + post;
    assert r[0..2] == Le16((4 + |payload|) % 65536) && r[2..4] == Le16(kind) && r[4..4 + |payload|] == payload;
    Inside(pre, r, post, 0, 2);
    Inside(pre, r, post, 2, 4);
    Inside(pre, r, post, 4, 4 + |payload|);
  }

  lemma Inside(a: Bytes, b: Bytes, c: Bytes, i: nat, j: nat)
    requires i <= j <= |b|
    ensures (a + (b + c))[|a| + i..|a| + j] == b[i..j]
  {
    var s, t := (a + (b + c))[|a| + i..|a| + j], b[i..j];
    forall k | 0 <= k < j - i ensures s[k] == t[k] {
      assert s[k] == (a + (b + c))[|a| + i + k] == (b + c)[i + k];
    }
  }

  lemma LenOfRecord(pre: Bytes, kind: U16, payload: Bytes, post: Bytes)
    ensures LenAt(pre + (Record(kind, payload) + post), |pre|) == (4 + |payload|) % 65536
  {
    hide FromLe16, Le16, Record, Up4;
    RecordParts(pre, kind, payload, post);
    Le16RoundTrip((4 + |payload|) % 65536);
  }

  lemma ItemOfRecord(pre: Bytes, kind: U16, payload: Bytes, post: Bytes)
    requires 4 + |payload| < 65536
    ensures var m := pre + (Record(kind, payload) + post);
            More(m, |pre|) && ItemAt(m, |pre|) == Item(kind, payload)
  {
    hide FromLe16, Le16, Record, LenAt, Up4;
    RecordParts(pre, kind, payload, post);
    LenOfRecord(pre, kind, payload, post);
    Le16RoundTrip(kind);
  }

  /** A record that fits is read as one item, and the walk goes on behind it. */
  lemma WalkRecord(pre: Bytes, kind: U16, payload: Bytes, post: Bytes)
    requires 4 + |payload| < 65536
    ensures var m := pre + (Record(kind, payload) + post);
            Walk(m, |pre|) == [Item(kind, payload)] + Walk(m, |pre| + |Record(kind, payload)|)
  {
    hide Record, LenAt, ItemAt, More, Up4, Walk;
    var m := pre + (Record(kind, payload) + post);
    WalkStep(m, |pre|);
    LenOfRecord(pre, kind, payload, post);
    ItemOfRecord(pre, kind, payload, post);
    HeaderShift(|payload|);
  }

  lemma ItemLength(m: Bytes, off: nat)
    ensures More(m, off) ==> |ItemAt(m, off).payload| == LenAt(m, off) - 4
  {
    hide FromLe16, LenAt;
  }

  /** A record too long for its field is never read back. */
  lemma WalkOverlong(pre: Bytes, kind: U16, payload: Bytes, post: Bytes, rest: seq<Item>)
    requires 4 + |payload| >= 65536
    ensures Walk(pre + (Record(kind, payload) + post), |pre|) != [Item(kind, payload)] + rest
  {
    hide Record, LenAt, ItemAt, Walk;
    var m := pre + (Record(kind, payload) + post);
    LenOfRecord(pre, kind, payload, post);
    WalkStep(m, |pre|);
    ItemLength(m, |pre|);
    var w := Walk(m, |pre|);
    assert w == [] || |w[0].payload| == LenAt(m, |pre|) - 4;
    assert ([Item(kind, payload)] + rest)[0].payload == payload;
  }

  /** The walk meets exactly the attributes written, in order, if and only if each one fits. */
  lemma {:induction false} WalkInvertsEncode(pre: Bytes, s: Attrs)
    ensures Walk(pre + Encode(s), |pre|) == Items(s) <==> AllFit(s)
    decreases s
  {
    hide Record, More, ItemAt, LenAt, Fits;
    if s.Nil? {
      NothingLeft(pre + []);
    } else {
      var a, t := s.head, s.tail;
      var r := Record(a.kind, Payload(a));
      assert Encode(s) == r + Encode(t);
      if Fits(a) {
        FitsMeans(a);
        WalkRecord(pre, a.kind, Payload(a), Encode(t));
        WalkInvertsEncode(pre + r, t);
        ConcatAssoc(pre, r, Encode(t));
        SameTail(Item(a.kind, Payload(a)), Walk(pre + Encode(s), |pre| + |r|), Items(t));
      } else {
        FitsMeans(a);
        WalkOverlong(pre, a.kind, Payload(a), Encode(t), Items(t));
      }
    }
  }

  lemma FitsMeans(a: Attr)
    ensures Fits(a) <==> 4 + |Payload(a)| < 65536
  {
  }

  lemma NothingLeft(m: Bytes)
    ensures Walk(m, |m|) == []
  {
  }

  lemma SameTail(x: Item, s: seq<Item>, t: seq<Item>)
    ensures [x] + s == [x] + t <==> s == t
  {
    assert ([x] + s)[1..] == s && ([x] + t)[1..] == t;
  }

  // ---- Whole trees ---------------------------------------------------------------

  /** Which paths of kinds are nests, and how long the fixed structure in front of their attributes is. */
  type Schema = seq<U16> -> Option<nat>

  predicate Conforms(schema: Schema, path: seq<U16>, s: Attrs)
    decreases s
  {
    match s
    case Nil => true
    case Cons(a, t) => ConformsAttr(schema, path + [a.kind], a) && Conforms(schema, path, t)
  }

  predicate ConformsAttr(schema: Schema, path: seq<U16>, a: Attr)
    decreases a
  {
    match a
    case Leaf(_, _) => schema(path) == None
    case Nest(_, header, children) => schema(path) == Some(|header|) && Conforms(schema, path, children)
  }

  /** The tree that walking every level recovers. */
  function Tree(schema: Schema, path: seq<U16>, items: seq<Item>): Attrs
    decreases Size(items), 1
  {
    if items == [] then Nil
    else Cons(Branch(schema, path + [items[0].kind], items[0]), Tree(schema, path, items[1..]))
  }

  function Branch(schema: Schema, path: seq<U16>, item: Item): Attr
    decreases 4 + |item.payload|, 0
  {
    match schema(path)
    case None => Leaf(item.kind, item.payload)
    case Some(h) =>
      if h <= |item.payload| then
        WalkInside(item.payload, h);
        Nest(item.kind, item.payload[..h], Tree(schema, path, Walk(item.payload, h)))
      else Leaf(item.kind, item.payload)
  }

  lemma {:induction false} TreeOfItems(schema: Schema, path: seq<U16>, s: Attrs)
    requires AllFit(s) && Conforms(schema, path, s)
    ensures Tree(schema, path, Items(s)) == s
    decreases s, 1
  {
    hide Walk, Encode, Payload, Fits;
    if s.Cons? {
      BranchOfItem(schema, path + [s.head.kind], s.head);
      TreeOfItems(schema, path, s.tail);
      assert Items(s)[1..] == Items(s.tail);
    }
  }

  lemma {:induction false} BranchOfItem(schema: Schema, path: seq<U16>, a: Attr)
    requires Fits(a) && ConformsAttr(schema, path, a)
    ensures Branch(schema, path, Item(a.kind, Payload(a))) == a
    decreases a, 0
  {
    hide Walk, Encode;
    if a.Nest? {
      FitsInside(a.children, |Payload(a)|);
      TreeOfItems(schema, path, a.children);
      WalkInvertsEncode(a.header, a.children);
      assert Payload(a)[..|a.header|] == a.header;
    }
  }

  /** Every nested tree whose top attributes fit 16 bits is recovered whole. */
  lemma TreeRoundTrip(schema: Schema, pre: Bytes, s: Attrs)
    requires AllFit(s) && Conforms(schema, [], s)
    ensures Tree(schema, [], Walk(pre + Encode(s), |pre|)) == s
  {
    WalkInvertsEncode(pre, s);
    TreeOfItems(schema, [], s);
  }
}
