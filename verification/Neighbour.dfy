/** Neighbour and link messages: the permanent-neighbour and veth builders, and the neighbour parsers. */
module Neighbour {
  import opened Bytes
  import opened Netlink
  import opened NlBuf

  datatype Family = V4 | V6

  const NLMSG_HEADER := 16
  const ATTRS_AT := 28
  const NDA_DST: U16 := 1
  const NDA_LLADDR: U16 := 2
  const RTM_NEWNEIGH: U16 := 28
  const NEIGH_FLAGS: U16 := 0x505
  const AF_INET: Byte := 2
  const NUD_PERMANENT: U16 := 0x80
  const RTN_UNICAST: Byte := 1

  function AddressLength(f: Family): nat { if f.V4? then 4 else 16 }

  // ---- Specification of the parsers -------------------------------------------

  predicate IsTarget(i: Item, target: Bytes) { i.kind == NDA_DST && i.payload == target }

  predicate IsMac(i: Item) { i.kind == NDA_LLADDR && |i.payload| == 6 }

  predicate Found(s: seq<Item>, target: Bytes) { exists k :: 0 <= k < |s| && IsTarget(s[k], target) }

  function LastMac(s: seq<Item>): Option<Bytes> {
    if s == [] then None
    else if IsMac(s[|s| - 1]) then Some(s[|s| - 1].payload)
    else LastMac(s[..|s| - 1])
  }

  /** The neighbour is reachable, stale, delayed, probed or permanent. */
  predicate Usable(state: Byte) { state & 0x9E != 0 }

  function IfindexOf(m: Bytes): U32
    requires |m| >= ATTRS_AT
  {
    FromLe32(m[20..24])
  }

  /** Zero asks for any interface, in the IPv4 parser only. */
  predicate Selected(f: Family, m: Bytes, ifindex: U32)
    requires |m| >= ATTRS_AT
  {
    ((f.V4? && ifindex == 0) || IfindexOf(m) == ifindex) && Usable(m[24])
  }

  function Lookup(f: Family, m: Bytes, target: Bytes, ifindex: U32): Option<Bytes> {
    if |m| < ATTRS_AT || !Selected(f, m, ifindex) then None
    else
      var s := Walk(m, ATTRS_AT);
      if Found(s, target) then LastMac(s) else None
  }

  lemma FoundNext(s: seq<Item>, i: Item, target: Bytes)
    ensures Found(s + [i], target) <==> Found(s, target) || IsTarget(i, target)
  {
    hide IsTarget;
    var t := s + [i];
    if Found(s, target) {
      var k :| 0 <= k < |s| && IsTarget(s[k], target);
      assert IsTarget(t[k], target);
    }
    if IsTarget(i, target) {
      assert IsTarget(t[|s|], target);
    }
  }

  lemma LastMacNext(s: seq<Item>, i: Item)
    ensures LastMac(s + [i]) == if IsMac(i) then Some(i.payload) else LastMac(s)
  {
    hide IsMac;
    assert (s + [i])[..|s|] == s;
  }

  lemma Advance(s: seq<Item>, i: Item, rest: seq<Item>, all: seq<Item>)
    requires s + ([i] + rest) == all
    ensures (s + [i]) + rest == all
  {
  }

  /** Both neighbour parsers: the walk, keeping whether the target was met and the last address. */
  method ParseNeigh(f: Family, m: Bytes, target: Bytes, ifindex: U32) returns (r: Option<Bytes>)
    requires |target| == AddressLength(f)
    ensures r == Lookup(f, m, target, ifindex)
  {
    hide Walk, Found, LastMac, Usable, FromLe32, FromLe16;
    if |m| < ATTRS_AT {
      return None;
    }
    if !Selected(f, m, ifindex) {
      return None;
    }
    var off := ATTRS_AT;
    var found := false;
    var mac := None;
    ghost var seen: seq<Item> := [];
    assert !Found([], target) && LastMac([]) == None by { NothingSeen(target); }
    while More(m, off)
      invariant seen + Walk(m, off) == Walk(m, ATTRS_AT)
      invariant found == Found(seen, target) && mac == LastMac(seen)
      decreases |m| - off
    {
      WalkStep(m, off);
      var rlen := LenAt(m, off);
      var kind := FromLe16(m[off + 2..off + 4]);
      var data := m[off + 4..off + rlen];
      FoundNext(seen, ItemAt(m, off), target);
      LastMacNext(seen, ItemAt(m, off));
      Advance(seen, ItemAt(m, off), Walk(m, off + Up4(rlen)), Walk(m, ATTRS_AT));
      if kind == NDA_DST && |data| == AddressLength(f) {
        if data == target {
          found := true;
        }
      } else if kind == NDA_LLADDR && |data| == 6 {
        mac := Some(data);
      }
      seen := seen + [ItemAt(m, off)];
      off := off + Up4(rlen);
    }
    WalkStep(m, off);
    assert seen + [] == seen;
    r := if found then mac else None;
  }

  lemma NothingSeen(target: Bytes)
    ensures !Found([], target) && LastMac([]) == None
  {
  }

  // ---- The permanent neighbour ---------------------------------------------------

  function MessageHeader(len: nat, kind: U16, flags: U16): (h: Bytes)
    ensures |h| == NLMSG_HEADER
  {
    Le32(len % 0x1_0000_0000) + Le16(kind) + Le16(flags) + Le32(1) + Le32(0)
  }

  function Ndmsg(ifindex: U32): (n: Bytes)
    ensures |n| == 12
  {
    [AF_INET, 0] + Le16(0) + Le32(ifindex) + Le16(NUD_PERMANENT) + [0, RTN_UNICAST]
  }

  function NeighAttrs(ip: Bytes, mac: Bytes): Attrs {
    Cons(Leaf(NDA_DST, ip), Cons(Leaf(NDA_LLADDR, mac), Nil))
  }

  /** The whole message, its length in front. */
  function Sealed(kind: U16, flags: U16, body: Bytes): Bytes {
    MessageHeader(NLMSG_HEADER + |body|, kind, flags) + body
  }

  function NeighMessage(ifindex: U32, ip: Bytes, mac: Bytes): Bytes {
    Sealed(RTM_NEWNEIGH, NEIGH_FLAGS, Ndmsg(ifindex) + Encode(NeighAttrs(ip, mac)))
  }

  /** Patching the zero length in front gives the sealed message. */
  lemma PatchedIsSealed(kind: U16, flags: U16, body: Bytes)
    ensures var d := MessageHeader(0, kind, flags) + body;
            Splice(d, 0, Le32(|d| % 0x1_0000_0000)) == Sealed(kind, flags, body)
  {
    hide Le32, Le16;
    var rest := Le16(kind) + Le16(flags) + Le32(1) + Le32(0);
    var d, n := MessageHeader(0, kind, flags) + body, NLMSG_HEADER + |body|;
    assert d == [] + Le32(0) + (rest + body);
    SpliceParts([], Le32(0), rest + body, Le32(n % 0x1_0000_0000));
    assert Sealed(kind, flags, body) == [] + Le32(n % 0x1_0000_0000) + (rest + body);
  }

  method WriteHeader(buf: Buffer, kind: U16, flags: U16)
    requires buf.data == []
    modifies buf
    ensures buf.data == MessageHeader(0, kind, flags)
  {
    hide Le32, Le16;
    buf.PushU32(0);
    buf.PushU16(kind);
    buf.PushU16(flags);
    buf.PushU32(1);
    buf.PushU32(0);
  }

  method WriteNdmsg(buf: Buffer, ifindex: U32)
    modifies buf
    ensures buf.data == old(buf.data) + Ndmsg(ifindex)
  {
    hide Le32, Le16;
    buf.PushBytes([AF_INET]);
    buf.PushBytes([0]);
    buf.PushU16(0);
    buf.PushU32(ifindex);
    buf.PushU16(NUD_PERMANENT);
    buf.PushBytes([0]);
    buf.PushBytes([RTN_UNICAST]);
    assert Ndmsg(ifindex) == [AF_INET] + [0] + Le16(0) + Le32(ifindex) + Le16(NUD_PERMANENT) + [0] + [RTN_UNICAST];
    assert buf.data == old(buf.data) + Ndmsg(ifindex);
  }

  /** The message that `neigh_add_v4_permanent` sends. */
  method BuildNeigh(ifindex: U32, ip: Bytes, mac: Bytes) returns (m: Bytes)
    requires |ip| == 4 && |mac| == 6
    ensures m == NeighMessage(ifindex, ip, mac)
  {
    hide Ndmsg, MessageHeader, Record, Sealed, Le32, Splice;
    var buf := new Buffer();
    WriteHeader(buf, RTM_NEWNEIGH, NEIGH_FLAGS);
    WriteNdmsg(buf, ifindex);
    ghost var front := buf.data;
    buf.WriteAttr(NDA_DST, ip);
    buf.WriteAttr(NDA_LLADDR, mac);
    TwoRecords(ip, mac, front);
    ghost var body := Ndmsg(ifindex) + Encode(NeighAttrs(ip, mac));
    ConcatAssoc(MessageHeader(0, RTM_NEWNEIGH, NEIGH_FLAGS), Ndmsg(ifindex), Encode(NeighAttrs(ip, mac)));
    assert buf.data == MessageHeader(0, RTM_NEWNEIGH, NEIGH_FLAGS) + body;
    PatchedIsSealed(RTM_NEWNEIGH, NEIGH_FLAGS, body);
    buf.FinalizeNlmsg();
    m := buf.data;
  }

  lemma TwoRecords(ip: Bytes, mac: Bytes, front: Bytes)
    ensures front + Record(NDA_DST, ip) + Record(NDA_LLADDR, mac) == front + Encode(NeighAttrs(ip, mac))
  {
    hide Record;
    var a, b := Record(NDA_DST, ip), Record(NDA_LLADDR, mac);
    var two := Cons(Leaf(NDA_LLADDR, mac), Nil);
    assert Encode(two) == b + Encode(Nil) == b + [] == b;
    assert Encode(NeighAttrs(ip, mac)) == a + Encode(two);
    ConcatAssoc(front, a, b);
  }

  lemma NeighFields(ifindex: U32, ip: Bytes, mac: Bytes)
    ensures var m := NeighMessage(ifindex, ip, mac);
            |m| >= ATTRS_AT && IfindexOf(m) == ifindex && m[24] == ToByte(0x80)
  {
    hide Le16, Le32, FromLe32, Encode;
    var m, n := NeighMessage(ifindex, ip, mac), Ndmsg(ifindex);
    Le32RoundTrip(ifindex);
    assert m[20..24] == n[4..8] == Le32(ifindex);
    assert m[24] == n[8] == Le16(NUD_PERMANENT)[0];
    LowByte(NUD_PERMANENT);
  }

  lemma LowByte(n: U16)
    requires n < 256
    ensures Le16(n)[0] == ToByte(n)
  {
    hide ToByte;
    assert n % 256 == n;
  }

  lemma PermanentIsUsable()
    ensures Usable(ToByte(0x80))
  {
    hide ToByte;
    assert Val(ToByte(0x80)) == 0x80;
    assert ToByte(0x80) == 0x80;
  }

  lemma NeighItems(ifindex: U32, ip: Bytes, mac: Bytes)
    requires |ip| == 4 && |mac| == 6
    ensures Walk(NeighMessage(ifindex, ip, mac), ATTRS_AT) == [Item(NDA_DST, ip), Item(NDA_LLADDR, mac)]
  {
    hide Ndmsg, MessageHeader, Walk, Encode;
    var s := NeighAttrs(ip, mac);
    var h := MessageHeader(NLMSG_HEADER + |Ndmsg(ifindex) + Encode(s)|, RTM_NEWNEIGH, NEIGH_FLAGS);
    ConcatAssoc(h, Ndmsg(ifindex), Encode(s));
    WalkInvertsEncode(h + Ndmsg(ifindex), s);
    assert Items(s.tail.tail) == [] && AllFit(s.tail.tail);
    assert Items(s.tail) == [Item(NDA_LLADDR, mac)] && AllFit(s.tail);
  }

  /** A built neighbour is found with its own address exactly when it is asked for on its interface or on any. */
  lemma BuiltNeighbourParses(ifindex: U32, ip: Bytes, mac: Bytes, target: Bytes, query: U32)
    requires |ip| == 4 && |mac| == 6 && |target| == 4
    ensures Lookup(V4, NeighMessage(ifindex, ip, mac), target, query)
            == if target == ip && (query == 0 || query == ifindex) then Some(mac) else None
  {
    hide NeighMessage, Walk, Usable, IfindexOf;
    var m := NeighMessage(ifindex, ip, mac);
    NeighFields(ifindex, ip, mac);
    PermanentIsUsable();
    NeighItems(ifindex, ip, mac);
    var s := [Item(NDA_DST, ip), Item(NDA_LLADDR, mac)];
    assert s == [] + [s[0]] + [s[1]];
    NothingSeen(target);
    FoundNext([], s[0], target);
    FoundNext([] + [s[0]], s[1], target);
    LastMacNext([] + [s[0]], s[1]);
  }

  /** The length in front is the message's own. */
  lemma LengthField(kind: U16, flags: U16, body: Bytes)
    ensures FromLe32(Sealed(kind, flags, body)[..4]) == |Sealed(kind, flags, body)| % 0x1_0000_0000
  {
    hide Le32, Le16, FromLe32;
    var n := NLMSG_HEADER + |body|;
    assert Sealed(kind, flags, body)[..4] == Le32(n % 0x1_0000_0000);
    Le32RoundTrip(n % 0x1_0000_0000);
  }

  // ---- The veth pair ---------------------------------------------------------------

  lemma Le16Of(n: U16, lo: Byte, hi: Byte)
    requires n == Val(lo) + 256 * Val(hi)
    ensures Le16(n) == [lo, hi]
  {
    hide Val, ToByte;
    assert n % 256 == Val(lo) && n / 256 == Val(hi);
    ByteIs(ToByte(n % 256), lo);
    ByteIs(ToByte(n / 256), hi);
  }

  lemma ByteIs(a: Byte, b: Byte)
    requires Val(a) == Val(b)
    ensures a == b
  {
  }

  lemma Le32Of(n: U32, lo: Byte)
    requires n == Val(lo)
    ensures Le32(n) == [lo, 0, 0, 0]
  {
    hide Val, Le16;
    ZeroByte();
    Le16Of(n, lo, 0);
    Le16Of(0, 0, 0);
    assert n % 65536 == n && n / 65536 == 0;
  }

  lemma ZeroByte()
    ensures Val(0) == 0
  {
  }

  lemma SmallWords()
    ensures Le32(48) == [48, 0, 0, 0] && Le32(1) == [1, 0, 0, 0] && Le32(0) == [0, 0, 0, 0]
    ensures Le16(28) == [28, 0] && Le16(0x505) == [5, 5] && Le16(0x80) == [0x80, 0] && Le16(0) == [0, 0]
    ensures Le16(8) == [8, 0] && Le16(10) == [10, 0] && Le16(1) == [1, 0] && Le16(2) == [2, 0]
  {
    hide Le16, Le32;
    Le32Of(48, 48);
    Le32Of(1, 1);
    Le32Of(0, 0);
    Le16Of(28, 28, 0);
    Le16Of(0x505, 5, 5);
    Le16Of(0x80, 0x80, 0);
    Le16Of(0, 0, 0);
    Le16Of(8, 8, 0);
    Le16Of(10, 10, 0);
    Le16Of(1, 1, 0);
    Le16Of(2, 2, 0);
  }

  /** The permanent-neighbour request, byte by byte: 48 bytes around the interface, the address and the MAC. */
  lemma NeighBytes(ifindex: U32, ip: Bytes, mac: Bytes)
    requires |ip| == 4 && |mac| == 6
    ensures NeighMessage(ifindex, ip, mac)
            == [48, 0, 0, 0, 28, 0, 5, 5, 1, 0, 0, 0, 0, 0, 0, 0] + [2, 0, 0, 0] + Le32(ifindex) + [0x80, 0, 0, 1]
               + [8, 0, 1, 0] + ip + [10, 0, 2, 0] + mac + [0, 0]
  {
    hide Le32, Le16, Encode, MessageHeader, Ndmsg, Record;
    NeighFront(ifindex);
    NeighRecords(ip, mac);
    TwoRecords(ip, mac, []);
    var h, n := MessageHeader(48, RTM_NEWNEIGH, NEIGH_FLAGS), Ndmsg(ifindex);
    var x, y := Record(NDA_DST, ip), Record(NDA_LLADDR, mac);
    var e := Encode(NeighAttrs(ip, mac));
    assert e == x + y by { assert [] + e == e && [] + x == x; }
    assert |n + e| == 32;
    Regrouped(h, n, x, y);
    Spelt(h, [2, 0, 0, 0], Le32(ifindex), [0x80, 0, 0, 1], [8, 0, 1, 0], ip, [10, 0, 2, 0], mac, [0, 0]);
  }

  lemma Regrouped(h: Bytes, n: Bytes, x: Bytes, y: Bytes)
    ensures h + (n + (x + y)) == h + n + x + y
  {
    ConcatAssoc(n, x, y);
    ConcatAssoc(h, n + x, y);
    ConcatAssoc(h, n, x);
  }

  lemma Spelt(h: Bytes, a: Bytes, b: Bytes, c: Bytes, d: Bytes, e: Bytes, f: Bytes, g: Bytes, i: Bytes)
    ensures h + (a + b + c) + (d + e) + (f + g + i) == h + a + b + c + d + e + f + g + i
  {
    ConcatAssoc(h, a + b, c);
    ConcatAssoc(h, a, b);
    ConcatAssoc(h + a + b + c, d, e);
    ConcatAssoc(h + a + b + c + d + e, f + g, i);
    ConcatAssoc(h + a + b + c + d + e, f, g);
  }

  lemma NeighFront(ifindex: U32)
    ensures MessageHeader(48, RTM_NEWNEIGH, NEIGH_FLAGS) == [48, 0, 0, 0, 28, 0, 5, 5, 1, 0, 0, 0, 0, 0, 0, 0]
    ensures Ndmsg(ifindex) == [2, 0, 0, 0] + Le32(ifindex) + [0x80, 0, 0, 1]
  {
    hide Le32, Le16;
    SmallWords();
  }

  lemma NeighRecords(ip: Bytes, mac: Bytes)
    requires |ip| == 4 && |mac| == 6
    ensures Record(NDA_DST, ip) == [8, 0, 1, 0] + ip && Record(NDA_LLADDR, mac) == [10, 0, 2, 0] + mac + [0, 0]
  {
    hide Le16;
    SmallWords();
    assert Up4(4) == 4 && Up4(6) == 8 && Zeros(0) == [] && Zeros(2) == [0, 0];
  }

  /** Single neighbour states: incomplete, failed and no-ARP entries are refused, the others used. */
  lemma UsableStates()
    ensures Usable(0x02) && Usable(0x04) && Usable(0x08) && Usable(0x10) && Usable(0x80)
    ensures !Usable(0x00) && !Usable(0x01) && !Usable(0x20) && !Usable(0x40)
  {
  }

  const RTM_NEWLINK: U16 := 16
  const LINK_FLAGS: U16 := 0x605
  const IFLA_IFNAME: U16 := 3
  const IFLA_LINKINFO: U16 := 18
  const IFLA_INFO_KIND: U16 := 1
  const IFLA_INFO_DATA: U16 := 2
  const VETH_INFO_PEER: U16 := 1
  const VETH: Bytes := [0x76, 0x65, 0x74, 0x68]

  function PeerNest(peer: Bytes): Attr {
    Nest(VETH_INFO_PEER, Zeros(16), Cons(Leaf(IFLA_IFNAME, peer + [0]), Nil))
  }

  function LinkInfo(peer: Bytes): Attr {
    Nest(IFLA_LINKINFO, [],
         Cons(Leaf(IFLA_INFO_KIND, VETH + [0]), Cons(Nest(IFLA_INFO_DATA, [], Cons(PeerNest(peer), Nil)), Nil)))
  }

  function VethAttrs(name: Bytes, peer: Bytes): Attrs {
    Cons(Leaf(IFLA_IFNAME, name + [0]), Cons(LinkInfo(peer), Nil))
  }

  function VethMessage(name: Bytes, peer: Bytes): Bytes {
    Sealed(RTM_NEWLINK, LINK_FLAGS, Zeros(16) + Encode(VethAttrs(name, peer)))
  }

  /** The veth request: its own name, then a link of kind "veth" whose data names the peer. */
  lemma VethBytes(name: Bytes, peer: Bytes)
    ensures var info := Record(1, [0x76, 0x65, 0x74, 0x68, 0])
            + Record(2, Record(1, Zeros(16) + Record(3, peer + [0])));
            VethMessage(name, peer) == Sealed(16, 0x605, Zeros(16) + (Record(3, name + [0]) + Record(18, info)))
  {
    hide Record, Sealed;
    var nest := PeerNest(peer);
    var data := Nest(IFLA_INFO_DATA, [], Cons(nest, Nil));
    OneAttr(Leaf(IFLA_IFNAME, peer + [0]));
    OneAttr(nest);
    OneAttr(data);
    assert Payload(nest) == Zeros(16) + Record(3, peer + [0]);
    assert Payload(data) == Record(1, Payload(nest));
    var kind := Record(IFLA_INFO_KIND, VETH + [0]);
    assert Encode(LinkInfo(peer).children) == kind + Encode(Cons(data, Nil));
    assert VETH + [0] == [0x76, 0x65, 0x74, 0x68, 0];
    assert Payload(LinkInfo(peer)) == kind + Record(2, Payload(data));
    var own, link := Record(3, name + [0]), Record(18, Payload(LinkInfo(peer)));
    OneAttr(LinkInfo(peer));
    assert Encode(VethAttrs(name, peer)) == own + link;
  }

  /** The nests of a veth request, by path. */
  function VethSchema(path: seq<U16>): Option<nat> {
    if path == [IFLA_LINKINFO] then Some(0)
    else if path == [IFLA_LINKINFO, IFLA_INFO_DATA] then Some(0)
    else if path == [IFLA_LINKINFO, IFLA_INFO_DATA, VETH_INFO_PEER] then Some(16)
    else None
  }

  lemma VethConforms(name: Bytes, peer: Bytes)
    ensures Conforms(VethSchema, [], VethAttrs(name, peer))
    ensures NestAligned(LinkInfo(peer))
  {
    var p1: seq<U16>, p2: seq<U16> := [IFLA_LINKINFO], [IFLA_LINKINFO, IFLA_INFO_DATA];
    var p3: seq<U16> := [IFLA_LINKINFO, IFLA_INFO_DATA, VETH_INFO_PEER];
    var peerNest := PeerNest(peer);
    var data := Nest(IFLA_INFO_DATA, [], Cons(peerNest, Nil));
    assert (p1 + [IFLA_INFO_KIND])[1] != p2[1] && p1 + [IFLA_INFO_DATA] == p2 && p2 + [VETH_INFO_PEER] == p3;
    assert NestsAligned(Nil) && Conforms(VethSchema, p3, Nil) && Conforms(VethSchema, p2, Nil)
        && Conforms(VethSchema, p1, Nil);
    assert ([] + [IFLA_IFNAME])[0] != p1[0] && Conforms(VethSchema, [], Nil);
    assert Conforms(VethSchema, p3, peerNest.children) && NestsAligned(peerNest.children);
    assert ConformsAttr(VethSchema, p3, peerNest) && NestAligned(peerNest) && NestsAligned(data.children);
    assert Conforms(VethSchema, p2, data.children);
    assert ConformsAttr(VethSchema, p2, data) && NestAligned(data);
    assert Conforms(VethSchema, p1, Cons(data, Nil)) && NestsAligned(Cons(data, Nil));
    assert Conforms(VethSchema, p1, LinkInfo(peer).children);
    assert [] + [IFLA_LINKINFO] == p1;
    assert ConformsAttr(VethSchema, p1, LinkInfo(peer));
    assert Conforms(VethSchema, [], Cons(LinkInfo(peer), Nil));
  }

  /** The lengths that a veth request can carry. */
  lemma VethFits(name: Bytes, peer: Bytes)
    ensures AllFit(VethAttrs(name, peer)) <==> |name| <= 65530 && |peer| <= 65487
  {
    hide Record, Up4;
    var n := Up4(|peer| + 1);
    var peerNest := PeerNest(peer);
    var data := Nest(IFLA_INFO_DATA, [], Cons(peerNest, Nil));
    OneAttr(Leaf(IFLA_IFNAME, peer + [0]));
    OneAttr(peerNest);
    OneAttr(data);
    assert |Payload(peerNest)| == 20 + n;
    AlignedSizes(|peer| + 1);
    assert |Payload(data)| == 24 + n;
    assert |Encode(Cons(data, Nil))| == 28 + n;
    assert |Record(IFLA_INFO_KIND, VETH + [0])| == 12 by { Up4Of5(); }
    assert Encode(LinkInfo(peer).children) == Record(IFLA_INFO_KIND, VETH + [0]) + Encode(Cons(data, Nil));
    assert |Payload(LinkInfo(peer))| == 40 + n;
    assert AllFit(Cons(LinkInfo(peer), Nil)) <==> 44 + n < 65536;
    NameBound(|peer|);
  }

  lemma OneAttr(a: Attr)
    ensures |Encode(Cons(a, Nil))| == 4 + Up4(|Payload(a)|)
  {
    hide Record, Up4, Payload;
    assert Encode(Nil) == [];
  }

  lemma Up4Of5()
    ensures Up4(5) == 8
  {
  }

  lemma AlignedSizes(n: nat)
    ensures Up4(20 + Up4(n)) == 20 + Up4(n) && Up4(24 + Up4(n)) == 24 + Up4(n)
  {
  }

  lemma NameBound(n: nat)
    ensures 44 + Up4(n + 1) < 65536 <==> n <= 65487
  {
  }

  /** The interface names and the nesting of a veth request are read back whole. */
  lemma VethReadBack(name: Bytes, peer: Bytes)
    requires |name| <= 65530 && |peer| <= 65487
    ensures Tree(VethSchema, [], Walk(VethMessage(name, peer), 32)) == VethAttrs(name, peer)
  {
    hide Walk, Encode, MessageHeader, Conforms, AllFit, Tree, VethAttrs;
    var s := VethAttrs(name, peer);
    var h := MessageHeader(NLMSG_HEADER + |Zeros(16) + Encode(s)|, RTM_NEWLINK, LINK_FLAGS);
    ConcatAssoc(h, Zeros(16), Encode(s));
    VethConforms(name, peer);
    VethFits(name, peer);
    TreeRoundTrip(VethSchema, h + Zeros(16), s);
  }

  /** `write_ifinfomsg` with every field zero. */
  method WriteIfinfomsg(buf: Buffer)
    modifies buf
    ensures buf.data == old(buf.data) + Zeros(16)
  {
    hide Le16, Le32;
    buf.PushBytes([0]);
    buf.PushBytes([0]);
    buf.PushU16(0);
    buf.PushU32(0);
    buf.PushU32(0);
    buf.PushU32(0);
    ZeroWords();
    SixteenZeros(old(buf.data));
  }

  lemma SixteenZeros(d: Bytes)
    ensures d + [0] + [0] + [0, 0] + [0, 0, 0, 0] + [0, 0, 0, 0] + [0, 0, 0, 0] == d + Zeros(16)
  {
  }

  /** The message that `veth_create` sends. */
  method BuildVeth(name: Bytes, peer: Bytes) returns (m: Bytes)
    ensures m == VethMessage(name, peer)
  {
    hide MessageHeader, Record, Sealed, Le32, Splice, LinkInfo, Zeros;
    var buf := new Buffer();
    WriteHeader(buf, RTM_NEWLINK, LINK_FLAGS);
    WriteIfinfomsg(buf);
    ghost var front := buf.data;
    VethConforms(name, peer);
    buf.WriteStringAttr(IFLA_IFNAME, name);
    buf.WriteTree(LinkInfo(peer));
    VethRecords(name, peer, front);
    ghost var body := Zeros(16) + Encode(VethAttrs(name, peer));
    ConcatAssoc(MessageHeader(0, RTM_NEWLINK, LINK_FLAGS), Zeros(16), Encode(VethAttrs(name, peer)));
    assert buf.data == MessageHeader(0, RTM_NEWLINK, LINK_FLAGS) + body;
    PatchedIsSealed(RTM_NEWLINK, LINK_FLAGS, body);
    buf.FinalizeNlmsg();
    m := buf.data;
  }

  lemma VethRecords(name: Bytes, peer: Bytes, front: Bytes)
    ensures front + Record(IFLA_IFNAME, name + [0]) + Record(LinkInfo(peer).kind, Payload(LinkInfo(peer)))
            == front + Encode(VethAttrs(name, peer))
  {
    hide Record, LinkInfo;
    var link := LinkInfo(peer);
    var a, b := Record(IFLA_IFNAME, name + [0]), Record(link.kind, Payload(link));
    assert Encode(Cons(link, Nil)) == b + Encode(Nil) == b + [] == b;
    assert Encode(VethAttrs(name, peer)) == a + Encode(Cons(link, Nil));
    ConcatAssoc(front, a, b);
  }

  lemma ZeroWords()
    ensures Le16(0) == [0, 0] && Le32(0) == [0, 0, 0, 0]
  {
  }
}
