/** Port ownership: configuration checks, registration with the XDP dispatcher, and dispatch. */
module Ports {
  import opened Bytes
  import opened Codec
  import opened Frames
  import opened KernelEgress
  import opened KernelIngress

  const MAX_PEERS := 8
  const MAX_PORTS := 64

  datatype Port = Port(word: bv16)
  datatype Peer = Peer(name: string, ports: seq<Port>)

  // ---- Specification ---------------------------------------------------------

  function PortSet(ports: seq<Port>): set<Port> { set p | p in ports }

  function AllPorts(peers: seq<Peer>): set<Port> {
    if peers == [] then {} else AllPorts(peers[..|peers| - 1]) + PortSet(peers[|peers| - 1].ports)
  }

  ghost predicate NamesUnique(peers: seq<Peer>) {
    forall i, j :: 0 <= i < j < |peers| ==> peers[i].name != peers[j].name
  }

  /** No port is listed by two peers; a peer may list one twice. */
  ghost predicate PortsDisjoint(peers: seq<Peer>) {
    forall i, j :: 0 <= i < j < |peers| ==> PortSet(peers[i].ports) !! PortSet(peers[j].ports)
  }

  /** The peer registered last among those that list p. */
  function Owner(peers: seq<Peer>, p: Port): Option<nat> {
    if peers == [] then None
    else if p in peers[|peers| - 1].ports then Some(|peers| - 1)
    else Owner(peers[..|peers| - 1], p)
  }

  lemma {:induction false} AllPortsHas(peers: seq<Peer>, p: Port)
    ensures p in AllPorts(peers) <==> exists i :: 0 <= i < |peers| && p in peers[i].ports
  {
    if peers != [] {
      var n := |peers| - 1;
      AllPortsHas(peers[..n], p);
      if p in AllPorts(peers[..n]) {
        var i :| 0 <= i < n && p in peers[..n][i].ports;
        assert p in peers[i].ports;
      }
      if i :| 0 <= i < |peers| && p in peers[i].ports {
        if i < n {
          assert p in peers[..n][i].ports;
        }
      }
    }
  }

  lemma {:induction false} OwnerMeaning(peers: seq<Peer>, p: Port)
    ensures Owner(peers, p).None? <==> forall i :: 0 <= i < |peers| ==> p !in peers[i].ports
    ensures Owner(peers, p).Some? ==>
              var k := Owner(peers, p).value;
              k < |peers| && p in peers[k].ports && forall i :: k < i < |peers| ==> p !in peers[i].ports
  {
    if peers != [] {
      var n := |peers| - 1;
      OwnerMeaning(peers[..n], p);
      forall i | 0 <= i < n ensures peers[..n][i] == peers[i] {
      }
    }
  }

  /** The port map says who lists a port. */
  ghost predicate OwnersExact(peers: seq<Peer>) {
    forall p, i :: 0 <= i < |peers| ==> (Owner(peers, p) == Some(i) <==> p in peers[i].ports)
  }

  /** Every listed port belongs to the peer that lists it exactly when the lists are disjoint. */
  lemma OwnersExactIff(peers: seq<Peer>)
    ensures OwnersExact(peers) <==> PortsDisjoint(peers)
  {
    if OwnersExact(peers) {
      forall i, j | 0 <= i < j < |peers| ensures PortSet(peers[i].ports) !! PortSet(peers[j].ports) {
        forall p | p in PortSet(peers[i].ports) ensures p !in PortSet(peers[j].ports) {
          assert Owner(peers, p) == Some(i);
        }
      }
    }
    if PortsDisjoint(peers) {
      forall p, i | 0 <= i < |peers| ensures Owner(peers, p) == Some(i) <==> p in peers[i].ports {
        OwnerMeaning(peers, p);
        if p in peers[i].ports {
          OnlyLister(peers, p, Owner(peers, p).value, i);
        }
      }
    }
  }

  lemma OnlyLister(peers: seq<Peer>, p: Port, i: nat, j: nat)
    requires PortsDisjoint(peers) && i < |peers| && j < |peers| && p in peers[i].ports && p in peers[j].ports
    ensures i == j
  {
    assert p in PortSet(peers[i].ports) && p in PortSet(peers[j].ports);
  }

  // ---- src/config.rs -----------------------------------------------------------

  /** The checks at the end of `parse_config`. */
  method Validate(peers: seq<Peer>) returns (ok: bool)
    ensures ok <==> peers != [] && NamesUnique(peers) && PortsDisjoint(peers)
  {
    if peers == [] {
      return false;
    }
    var names := {};
    for k := 0 to |peers|
      invariant NamesUnique(peers[..k])
      invariant forall i :: 0 <= i < k ==> peers[i].name in names
      invariant forall n :: n in names ==> exists i :: 0 <= i < k && peers[i].name == n
    {
      if peers[k].name in names {
        ghost var i :| 0 <= i < k && peers[i].name == peers[k].name;
        assert !NamesUnique(peers);
        return false;
      }
      names := names + {peers[k].name};
    }
    assert peers[..|peers|] == peers;
    ok := ValidatePorts(peers);
  }

  method ValidatePorts(peers: seq<Peer>) returns (ok: bool)
    ensures ok <==> PortsDisjoint(peers)
  {
    hide PortSet;
    var seen := {};
    for k := 0 to |peers|
      invariant PortsDisjoint(peers[..k]) && seen == AllPorts(peers[..k])
    {
      var unique := PortSet(peers[k].ports);
      var next, unseen := InsertAll(seen, unique);
      DisjointNext(peers, k);
      if !unseen {
        DisjointPrefix(peers, k + 1);
        return false;
      }
      seen := next;
    }
    assert peers[..|peers|] == peers;
    return true;
  }

  /** Inserts a peer's ports one by one and stops at one already there. */
  method InsertAll(seen: set<Port>, ports: set<Port>) returns (r: set<Port>, unseen: bool)
    ensures unseen <==> seen !! ports
    ensures unseen ==> r == seen + ports
  {
    r := seen;
    var left := ports;
    while left != {}
      invariant left <= ports && r == seen + (ports - left) && seen !! (ports - left)
      decreases left
    {
      var p :| p in left;
      if p in r {
        return r, false;
      }
      r := r + {p};
      left := left - {p};
    }
    return r, true;
  }

  lemma DisjointNext(peers: seq<Peer>, k: nat)
    requires k < |peers| && PortsDisjoint(peers[..k])
    ensures AllPorts(peers[..k + 1]) == AllPorts(peers[..k]) + PortSet(peers[k].ports)
    ensures PortsDisjoint(peers[..k + 1]) <==> AllPorts(peers[..k]) !! PortSet(peers[k].ports)
  {
    var s, t := peers[..k], peers[..k + 1];
    assert t[..k] == s;
    if AllPorts(s) !! PortSet(peers[k].ports) {
      forall i, j | 0 <= i < j < k + 1 ensures PortSet(t[i].ports) !! PortSet(t[j].ports) {
        if j == k {
          forall p | p in PortSet(t[i].ports) ensures p in AllPorts(s) {
            AllPortsHas(s, p);
            assert p in s[i].ports;
          }
        } else {
          assert t[i] == s[i] && t[j] == s[j];
        }
      }
    } else {
      var p :| p in AllPorts(s) && p in PortSet(peers[k].ports);
      AllPortsHas(s, p);
      var i :| 0 <= i < k && p in s[i].ports;
      assert p in PortSet(t[i].ports) && p in PortSet(t[k].ports);
    }
  }

  lemma DisjointPrefix(peers: seq<Peer>, k: nat)
    requires k <= |peers|
    ensures PortsDisjoint(peers) ==> PortsDisjoint(peers[..k])
  {
  }

  // ---- src/tc/loader.rs ----------------------------------------------------------

  /** m with every listed port given to peer i. */
  function Assign(m: map<Port, nat>, ports: seq<Port>, i: nat): map<Port, nat> {
    map p | p in m.Keys + PortSet(ports) :: if p in ports then i else m[p]
  }

  function Lookup(m: map<Port, nat>, p: Port): Option<nat> {
    if p in m then Some(m[p]) else None
  }

  lemma AssignNext(m: map<Port, nat>, ports: seq<Port>, k: nat, i: nat)
    requires k < |ports|
    ensures Assign(m, ports[..k + 1], i) == Assign(m, ports[..k], i)[ports[k] := i]
    ensures Assign(m, ports[..k + 1], i).Keys == Assign(m, ports[..k], i).Keys + {ports[k]}
    ensures Assign(m, ports[..k], i).Keys == m.Keys + PortSet(ports[..k])
  {
    assert ports[..k + 1] == ports[..k] + [ports[k]];
  }

  lemma {:induction false} SubsetSize(a: set<Port>, b: set<Port>)
    requires a <= b
    ensures |a| <= |b|
  {
    if a != {} {
      var p :| p in a;
      SubsetSize(a - {p}, b - {p});
    }
  }

  class Dispatcher {
    var nextPeer: nat
    var progs: map<nat, int>
    var portMap: map<Port, nat>

    constructor ()
      ensures nextPeer == 0 && progs == map[] && portMap == map[]
    {
      nextPeer, progs, portMap := 0, map[], map[];
    }

    /** A map of bounded size refuses a new key when it is full. */
    method UpdatePort(p: Port, i: nat) returns (ok: bool)
      modifies this`portMap
      ensures ok <==> |old(portMap).Keys + {p}| <= MAX_PORTS || p in old(portMap)
      ensures portMap == if ok then old(portMap)[p := i] else old(portMap)
    {
      if p !in portMap && |portMap.Keys| >= MAX_PORTS {
        assert |portMap.Keys + {p}| == |portMap.Keys| + 1;
        return false;
      }
      assert p !in portMap ==> |portMap.Keys + {p}| == |portMap.Keys| + 1;
      portMap := portMap[p := i];
      return true;
    }

    /** The loop over a peer's ports. */
    method AddPorts(ports: seq<Port>, i: nat) returns (ok: bool)
      requires |portMap.Keys| <= MAX_PORTS
      modifies this`portMap
      ensures |portMap.Keys| <= MAX_PORTS
      ensures ok <==> |old(portMap).Keys + PortSet(ports)| <= MAX_PORTS
      ensures ok ==> portMap == Assign(old(portMap), ports, i)
      ensures exists k :: 0 <= k <= |ports| && portMap == Assign(old(portMap), ports[..k], i)
    {
      hide Assign, PortSet;
      ghost var m := portMap;
      AssignNothing(m, ports, i);
      for k := 0 to |ports|
        invariant portMap == Assign(m, ports[..k], i) && portMap.Keys == m.Keys + PortSet(ports[..k])
        invariant |portMap.Keys| <= MAX_PORTS
      {
        AssignNext(m, ports, k, i);
        PortSetNext(ports, k);
        Grown(portMap.Keys, m.Keys, PortSet(ports[..k]), ports[k]);
        ok := UpdatePort(ports[k], i);
        if !ok {
          SubsetSize(m.Keys + PortSet(ports[..k + 1]), m.Keys + PortSet(ports));
          return false;
        }
      }
      assert ports[..|ports|] == ports;
      ok := true;
    }

    /**
     A peer takes the next index; its ports point to it when both maps have room, and a full map
     keeps a prefix of them.
     */
    method RegisterPeer(fd: int, ports: seq<Port>) returns (r: Option<nat>)
      requires |portMap.Keys| <= MAX_PORTS
      modifies this
      ensures |portMap.Keys| <= MAX_PORTS
      ensures nextPeer == old(nextPeer) + 1
      ensures r.Some? <==> old(nextPeer) < MAX_PEERS && |old(portMap).Keys + PortSet(ports)| <= MAX_PORTS
      ensures r.Some? ==> r.value == old(nextPeer) && portMap == Assign(old(portMap), ports, old(nextPeer))
      ensures r.None? ==> exists k :: 0 <= k <= |ports| && portMap == Assign(old(portMap), ports[..k], old(nextPeer))
      ensures progs == if old(nextPeer) < MAX_PEERS then old(progs)[old(nextPeer) := fd] else old(progs)
    {
      hide Assign, PortSet;
      var i := nextPeer;
      nextPeer := nextPeer + 1;
      if i >= MAX_PEERS {
        AssignNothing(portMap, ports, i);
        return None;
      }
      progs := progs[i := fd];
      var ok := AddPorts(ports, i);
      r := if ok then Some(i) else None;
    }
  }

  lemma Grown(keys: set<Port>, m: set<Port>, s: set<Port>, p: Port)
    requires keys == m + s
    ensures keys + {p} == m + (s + {p})
    ensures p in keys ==> keys + {p} == keys
  {
  }

  lemma AssignNothing(m: map<Port, nat>, ports: seq<Port>, i: nat)
    ensures Assign(m, ports[..0], i) == m && PortSet(ports[..0]) == {}
  {
  }

  lemma PortSetNext(ports: seq<Port>, k: nat)
    requires k < |ports|
    ensures PortSet(ports[..k + 1]) == PortSet(ports[..k]) + {ports[k]}
    ensures PortSet(ports[..k + 1]) <= PortSet(ports)
  {
    assert ports[..k + 1] == ports[..k] + [ports[k]];
  }

  /** The map sends every port to its owner. */
  ghost predicate MapsOwners(m: map<Port, nat>, peers: seq<Peer>) {
    m.Keys == AllPorts(peers) && forall p :: Lookup(m, p) == Owner(peers, p)
  }

  lemma MapsNext(m: map<Port, nat>, peers: seq<Peer>, k: nat)
    requires k < |peers| && MapsOwners(m, peers[..k])
    ensures MapsOwners(Assign(m, peers[k].ports, k), peers[..k + 1])
    ensures AllPorts(peers[..k + 1]) == m.Keys + PortSet(peers[k].ports)
  {
    var t := peers[..k + 1];
    assert t[..k] == peers[..k];
    forall p ensures Lookup(Assign(m, peers[k].ports, k), p) == Owner(t, p) {
      assert Lookup(m, p) == Owner(peers[..k], p);
    }
  }

  lemma AllPortsPrefix(peers: seq<Peer>, k: nat)
    requires k <= |peers|
    ensures AllPorts(peers[..k]) <= AllPorts(peers)
  {
    forall p | p in AllPorts(peers[..k]) ensures p in AllPorts(peers) {
      AllPortsHas(peers[..k], p);
      AllPortsHas(peers, p);
      var i :| 0 <= i < k && p in peers[..k][i].ports;
      assert p in peers[i].ports;
    }
  }

  /**
   All peers of one interface, in order: it succeeds exactly within the capacity of both maps, and
   maps each port to its owner.
   */
  method RegisterAll(peers: seq<Peer>, fds: seq<int>) returns (d: Dispatcher, ok: bool)
    requires |fds| == |peers|
    ensures ok <==> |peers| <= MAX_PEERS && |AllPorts(peers)| <= MAX_PORTS
    ensures ok ==> MapsOwners(d.portMap, peers)
    ensures ok ==> forall i :: 0 <= i < |peers| ==> i in d.progs && d.progs[i] == fds[i]
  {
    hide Assign, AllPorts, PortSet, MapsOwners;
    d := new Dispatcher();
    NoOwners(peers);
    for k := 0 to |peers|
      invariant fresh(d) && d.nextPeer == k <= MAX_PEERS && |d.portMap.Keys| <= MAX_PORTS
      invariant MapsOwners(d.portMap, peers[..k])
      invariant forall i :: 0 <= i < k ==> i in d.progs && d.progs[i] == fds[i]
    {
      MapsNext(d.portMap, peers, k);
      AllPortsPrefix(peers, k + 1);
      SubsetSize(AllPorts(peers[..k + 1]), AllPorts(peers));
      var r := d.RegisterPeer(fds[k], peers[k].ports);
      if r.None? {
        return d, false;
      }
    }
    assert peers[..|peers|] == peers;
    KeysAreAll(d.portMap, peers);
    ok := true;
  }

  lemma KeysAreAll(m: map<Port, nat>, peers: seq<Peer>)
    requires MapsOwners(m, peers)
    ensures m.Keys == AllPorts(peers)
  {
  }

  lemma NoOwners(peers: seq<Peer>)
    ensures MapsOwners(map[], peers[..0])
  {
  }

  // ---- src/bpf/xdp_dispatcher.bpf.c -------------------------------------------------

  datatype Action = PassOn | Call(fd: int)

  /** Where the UDP header starts; the IPv4 header length is taken as it stands. */
  function DispatchUdp(d: Bytes): (r: Option<nat>)
    ensures r.Some? ==> r.value + 8 <= |d|
  {
    if |d| < 14 then None
    else
      var vlan := d[12..14] == [0x81, 0x00];
      if vlan && |d| < 18 then None
      else
        var ip := if vlan then 18 else 14;
        var proto := if vlan then d[16..18] else d[12..14];
        if proto == [0x08, 0x00] then
          if ip + 20 > |d| || d[ip + 9] != 17 || ip + 4 * (Val(d[ip]) % 16) + 8 > |d| then None
          else Some(ip + 4 * (Val(d[ip]) % 16))
        else if proto == [0x86, 0xDD] then
          if ip + 40 > |d| || d[ip + 6] != 17 || ip + 48 > |d| then None
          else Some(ip + 40)
        else None
  }

  function DestinationPort(d: Bytes): Option<Port> {
    match DispatchUdp(d)
    case None => None
    case Some(u) => Some(Port(PortOf(d[u + 2..u + 4])))
  }

  /** The program a frame is handed to; a missing program or port passes it on. */
  function Dispatch(progs: map<nat, int>, portMap: map<Port, nat>, d: Bytes): Action {
    match DestinationPort(d)
    case None => PassOn
    case Some(p) => if p in portMap && portMap[p] in progs then Call(progs[portMap[p]]) else PassOn
  }

  /** The port is read from UDP headers behind IPv4 headers of any length and IPv6 headers, tagged or not. */
  lemma DispatchReads(d: Bytes, u: nat)
    requires u + 8 <= |d|
    ensures (&& |d| >= 34 && d[12..14] == [0x08, 0x00] && d[23] == 17 && u == 14 + 4 * (Val(d[14]) % 16))
            || (&& |d| >= 38 && d[12..14] == [0x81, 0x00] && d[16..18] == [0x08, 0x00] && d[27] == 17
                && u == 18 + 4 * (Val(d[18]) % 16))
            || (&& |d| >= 62 && d[12..14] == [0x86, 0xDD] && d[20] == 17 && u == 54)
            || (&& |d| >= 66 && d[12..14] == [0x81, 0x00] && d[16..18] == [0x86, 0xDD] && d[24] == 17 && u == 58)
            <==> DispatchUdp(d) == Some(u)
    ensures DispatchUdp(d) == Some(u) ==> DestinationPort(d) == Some(Port(PortOf(d[u + 2..u + 4])))
  {
    hide Val, PortOf;
  }

  /** Whatever a peer's program parses, the dispatcher reads the same port from. */
  lemma DispatcherSeesIngressPort(d: Bytes)
    requires ParseIngress(d).Some?
    ensures DestinationPort(d) == Some(Port(PortOf(d[ParseIngress(d).value.udp + 2..ParseIngress(d).value.udp + 4])))
  {
    hide Val, PortOf;
  }

  /** Under an accepted configuration a frame reaches the one peer that lists its port, or nobody. */
  lemma DispatchReachesOwner(peers: seq<Peer>, fds: seq<int>, progs: map<nat, int>, portMap: map<Port, nat>, d: Bytes,
                             p: Port)
    requires |fds| == |peers| && PortsDisjoint(peers) && MapsOwners(portMap, peers)
    requires forall i :: 0 <= i < |peers| ==> i in progs && progs[i] == fds[i]
    requires DestinationPort(d) == Some(p)
    ensures forall i :: 0 <= i < |peers| && p in peers[i].ports ==> Dispatch(progs, portMap, d) == Call(fds[i])
    ensures (forall i :: 0 <= i < |peers| ==> p !in peers[i].ports) ==> Dispatch(progs, portMap, d) == PassOn
  {
    hide DestinationPort;
    OwnersExactIff(peers);
    OwnerMeaning(peers, p);
    assert Lookup(portMap, p) == Owner(peers, p);
  }

  /** A frame sent by the egress program on a port of peer i is handed to peer i's program. */
  lemma SentFrameReachesOwner(d: Bytes, e: Bytes, ks: Keystream, fill: Filler, quic: bool, port: bv16, outer: Outer,
                              peers: seq<Peer>, fds: seq<int>,
                              progs: map<nat, int>, portMap: map<Port, nat>, i: nat)
    requires PlainFrame(d) && |UdpPayload(d)| >= 32 && SentFrame(d, e, ks, fill, quic, port, outer)
    requires |fds| == |peers| && PortsDisjoint(peers) && MapsOwners(portMap, peers)
    requires forall j :: 0 <= j < |peers| ==> j in progs && progs[j] == fds[j]
    requires i < |peers| && Port(port) in peers[i].ports
    ensures Dispatch(progs, portMap, e) == Call(fds[i])
  {
    hide DestinationPort, Dispatch, MapsOwners, PortOf, PlainWire, ParseIngress, PlainFrame, UdpPayload;
    PlainParsesIn(e);
    DispatcherSeesIngressPort(e);
    assert PortsOf(e).1 == port;
    DispatchReachesOwner(peers, fds, progs, portMap, e, Port(port));
  }
}
