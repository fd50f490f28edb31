/** The section loop of `parse_config`: one peer per [peer] block, in order, then the checks across peers. */
module Config {
  import opened Bytes
  import opened Ports

  /**
   Lines as far as they matter here, with their values parsed.  `Malformed` is
   a key of the current section whose value does not parse; any other line is
   `Other`.
   */
  datatype Line =
    | PeerSection | OtherSection
    | Name(name: string) | PortList(ports: seq<Port>) | PeerPortList(ports: seq<Port>) | Obfuscation(sip: bool)
    | Endpoint | Secret | Malformed | Other

  datatype Builder = Builder(
    name: string, ports: Option<seq<Port>>, peerPorts: Option<seq<Port>>, sip: bool, endpoint: bool, secret: bool)

  const DEFAULT := Builder(DEFAULT_NAME, None, None, false, false, false)

  const DEFAULT_NAME := "gut0"

  // ---- Specification -------------------------------------------------------

  /** The lines under each [peer] header, up to the next one. */
  function Blocks(lines: seq<Line>): seq<seq<Line>> {
    if lines == [] then []
    else
      var n := |lines| - 1;
      var b := Blocks(lines[..n]);
      if lines[n].PeerSection? then b + [[]]
      else if b == [] then []
      else b[..|b| - 1] + [b[|b| - 1] + [lines[n]]]
  }

  /** The part of a block before another section begins. */
  function Effective(block: seq<Line>): seq<Line> {
    if block == [] || block[0].OtherSection? then [] else [block[0]] + Effective(block[1..])
  }

  function LastName(e: seq<Line>): string {
    if e == [] then DEFAULT_NAME
    else if e[|e| - 1].Name? then e[|e| - 1].name
    else LastName(e[..|e| - 1])
  }

  function LastPorts(e: seq<Line>): Option<seq<Port>> {
    if e == [] then None
    else if e[|e| - 1].PortList? then Some(e[|e| - 1].ports)
    else LastPorts(e[..|e| - 1])
  }

  function LastPeerPorts(e: seq<Line>): Option<seq<Port>> {
    if e == [] then None
    else if e[|e| - 1].PeerPortList? then Some(e[|e| - 1].ports)
    else LastPeerPorts(e[..|e| - 1])
  }

  predicate LastSip(e: seq<Line>) {
    if e == [] then false
    else if e[|e| - 1].Obfuscation? then e[|e| - 1].sip
    else LastSip(e[..|e| - 1])
  }

  /** A list without entries, or local ports that name zero. */
  predicate Unusable(l: Line) {
    (l.PortList? || l.PeerPortList?) && (l.ports == [] || (l.PortList? && Port(0) in l.ports))
  }

  predicate AllUsable(e: seq<Line>) { forall i :: 0 <= i < |e| ==> !Unusable(e[i]) }

  function BuilderOf(e: seq<Line>): Builder {
    Builder(LastName(e), LastPorts(e), LastPeerPorts(e), LastSip(e), Endpoint in e, Secret in e)
  }

  /** `build` succeeds: ports, an endpoint and a key are set, and SIP mode has at least two remote ports. */
  predicate Complete(b: Builder) {
    && b.ports.Some? && b.endpoint && b.secret
    && (b.sip ==> |if b.peerPorts.Some? then b.peerPorts.value else b.ports.value| >= 2)
  }

  /** A block from which a peer can be built: the last value of each key counts, and no list names port zero. */
  predicate Good(block: seq<Line>) {
    AllUsable(Effective(block)) && Complete(BuilderOf(Effective(block)))
  }

  function PeerOf(b: Builder): Peer
    requires Complete(b)
  {
    Peer(b.name, b.ports.value)
  }

  ghost predicate AllGood(blocks: seq<seq<Line>>) { forall j :: 0 <= j < |blocks| ==> Good(blocks[j]) }

  ghost predicate Built(peers: seq<Peer>, blocks: seq<seq<Line>>) {
    && |peers| == |blocks| && AllGood(blocks)
    && forall j :: 0 <= j < |blocks| ==> peers[j] == PeerOf(BuilderOf(Effective(blocks[j])))
  }

  // ---- Blocks grow at the end --------------------------------------------------

  lemma BlocksNext(lines: seq<Line>, k: nat)
    requires k < |lines|
    ensures var b := Blocks(lines[..k]);
            Blocks(lines[..k + 1]) ==
            if lines[k].PeerSection? then b + [[]]
            else if b == [] then []
            else b[..|b| - 1] + [b[|b| - 1] + [lines[k]]]
  {
    assert lines[..k + 1][..k] == lines[..k];
  }

  /** Later lines leave the finished blocks alone and only extend the last. */
  lemma {:induction false} BlocksKeep(lines: seq<Line>, k: nat)
    requires k <= |lines| && Blocks(lines[..k]) != []
    ensures var b, f := Blocks(lines[..k]), Blocks(lines);
            && |b| <= |f| && b[|b| - 1] <= f[|b| - 1]
            && forall j :: 0 <= j < |b| - 1 ==> f[j] == b[j]
    decreases |lines| - k
  {
    hide Blocks;
    if k < |lines| {
      BlocksNext(lines, k);
      BlocksKeep(lines, k + 1);
    } else {
      assert lines[..k] == lines;
    }
  }

  lemma {:induction false} EffectiveNext(block: seq<Line>, x: Line)
    ensures Effective(block + [x]) ==
            if OtherSection in block || x.OtherSection? then Effective(block) else Effective(block) + [x]
  {
    if block == [] {
      assert block + [x] == [x] && Effective([x][1..]) == [];
    } else {
      EffectiveNext(block[1..], x);
      assert (block + [x])[1..] == block[1..] + [x];
      assert OtherSection in block <==> block[0].OtherSection? || OtherSection in block[1..];
    }
  }

  lemma {:induction false} EffectivePrefix(a: seq<Line>, b: seq<Line>)
    requires a <= b
    ensures Effective(a) <= Effective(b)
  {
    if a != [] {
      EffectivePrefix(a[1..], b[1..]);
    }
  }

  /** A builder with one more setting. */
  function Set(b: Builder, x: Line): Builder {
    match x
    case Name(n) => b.(name := n)
    case PortList(p) => b.(ports := Some(p))
    case PeerPortList(p) => b.(peerPorts := Some(p))
    case Obfuscation(sip) => b.(sip := sip)
    case Endpoint => b.(endpoint := true)
    case Secret => b.(secret := true)
    case _ => b
  }

  lemma BuilderNext(e: seq<Line>, x: Line)
    ensures BuilderOf(e + [x]) == Set(BuilderOf(e), x)
  {
    assert (e + [x])[..|e|] == e;
  }

  // ---- The loop ------------------------------------------------------------------

  /** The state of the loop after some lines. */
  ghost predicate Reached(lines: seq<Line>, peers: seq<Peer>, builder: Option<Builder>, inPeer: bool) {
    var b := Blocks(lines);
    && (b == [] ==> builder == None && peers == [] && !inPeer)
    && (b != [] ==>
          && Built(peers, b[..|b| - 1])
          && builder == Some(BuilderOf(Effective(b[|b| - 1])))
          && AllUsable(Effective(b[|b| - 1]))
          && (inPeer <==> OtherSection !in b[|b| - 1]))
  }

  lemma ReachedHeader(lines: seq<Line>, k: nat, peers: seq<Peer>, builder: Option<Builder>, inPeer: bool)
    requires k < |lines| && lines[k].PeerSection? && Reached(lines[..k], peers, builder, inPeer)
    requires builder.Some? ==> Complete(builder.value)
    ensures var done := if builder.Some? then peers + [PeerOf(builder.value)] else peers;
            Reached(lines[..k + 1], done, Some(DEFAULT), true)
  {
    hide Blocks, LastName, LastPorts, LastPeerPorts, LastSip;
    BlocksNext(lines, k);
    var b := Blocks(lines[..k]);
    assert (b + [[]])[..|b|] == b;
    NothingSet();
    if b != [] {
      assert b == b[..|b| - 1] + [b[|b| - 1]];
    }
  }

  lemma NothingSet()
    ensures Effective([]) == [] && BuilderOf([]) == DEFAULT
  {
  }

  lemma ReachedLine(lines: seq<Line>, k: nat, peers: seq<Peer>, builder: Option<Builder>, inPeer: bool)
    requires k < |lines| && !lines[k].PeerSection? && Reached(lines[..k], peers, builder, inPeer)
    requires inPeer && builder.Some? ==> !Unusable(lines[k])
    ensures inPeer ==> builder.Some?
    ensures var next := if inPeer then Some(Set(builder.value, lines[k])) else builder;
            Reached(lines[..k + 1], peers, next, inPeer && !lines[k].OtherSection?)
  {
    hide Blocks, BuilderOf, Effective, Unusable;
    BlocksNext(lines, k);
    var b := Blocks(lines[..k]);
    if b != [] {
      var last, x := b[|b| - 1], lines[k];
      var c := b[..|b| - 1] + [last + [x]];
      assert c[..|c| - 1] == b[..|b| - 1] && c[|c| - 1] == last + [x];
      EffectiveNext(last, x);
      BuilderNext(Effective(last), x);
    }
  }

  /** A failure now is a bad block at the end. */
  lemma BadNow(lines: seq<Line>, k: nat, peers: seq<Peer>, builder: Option<Builder>, inPeer: bool)
    requires k < |lines| && Reached(lines[..k], peers, builder, inPeer) && builder.Some?
    requires (lines[k].PeerSection? && !Complete(builder.value)) || (inPeer && Unusable(lines[k]))
    ensures !AllGood(Blocks(lines))
  {
    hide Blocks, BuilderOf, Effective, Complete;
    var b := Blocks(lines[..k]);
    var n := |b| - 1;
    BlocksNext(lines, k);
    BlocksKeep(lines, k + 1);
    if lines[k].PeerSection? {
      assert Blocks(lines)[n] == b[n];
      assert !Good(Blocks(lines)[n]);
    } else {
      EffectiveNext(b[n], lines[k]);
      EffectivePrefix(b[n] + [lines[k]], Blocks(lines)[n]);
      assert Unusable(Effective(Blocks(lines)[n])[|Effective(b[n])|]);
      assert !Good(Blocks(lines)[n]);
    }
  }

  /** The peers of a configuration: one per [peer] block, or nothing when a block is incomplete or there is none. */
  method ParsePeers(lines: seq<Line>) returns (r: Option<seq<Peer>>)
    ensures r.Some? <==> Malformed !in lines && Blocks(lines) != [] && AllGood(Blocks(lines))
    ensures r.Some? ==> Built(r.value, Blocks(lines))
  {
    hide Reached, Blocks, AllGood, Built, Unusable;
    var peers: seq<Peer> := [];
    var builder: Option<Builder> := None;
    var inPeer := false;
    assert Reached(lines[..0], peers, builder, inPeer) by { NothingRead(lines); }
    for k := 0 to |lines|
      invariant Reached(lines[..k], peers, builder, inPeer) && Malformed !in lines[..k]
    {
      var line := lines[k];
      assert lines[..k + 1] == lines[..k] + [line];
      if line.Malformed? {
        return None;
      }
      if line.PeerSection? {
        if builder.Some? {
          if !Complete(builder.value) {
            BadNow(lines, k, peers, builder, inPeer);
            return None;
          }
        }
        ReachedHeader(lines, k, peers, builder, inPeer);
        if builder.Some? {
          peers := peers + [PeerOf(builder.value)];
        }
        builder := Some(DEFAULT);
        inPeer := true;
      } else {
        HasBuilder(lines[..k], peers, builder, inPeer);
        if inPeer {
          if Unusable(line) {
            BadNow(lines, k, peers, builder, inPeer);
            return None;
          }
        }
        ReachedLine(lines, k, peers, builder, inPeer);
        if inPeer {
          builder := Some(Set(builder.value, line));
        }
        inPeer := inPeer && !line.OtherSection?;
      }
    }
    assert lines[..|lines|] == lines;
    AtEnd(lines, peers, builder, inPeer);
    if builder.None? || !Complete(builder.value) {
      return None;
    }
    r := Some(peers + [PeerOf(builder.value)]);
  }

  lemma HasBuilder(lines: seq<Line>, peers: seq<Peer>, builder: Option<Builder>, inPeer: bool)
    requires Reached(lines, peers, builder, inPeer)
    ensures inPeer ==> builder.Some?
  {
  }

  lemma NothingRead(lines: seq<Line>)
    ensures Reached(lines[..0], [], None, false)
  {
  }

  lemma AtEnd(lines: seq<Line>, peers: seq<Peer>, builder: Option<Builder>, inPeer: bool)
    requires Reached(lines, peers, builder, inPeer)
    ensures Blocks(lines) != [] && AllGood(Blocks(lines)) <==> builder.Some? && Complete(builder.value)
    ensures builder.Some? && Complete(builder.value) ==> Built(peers + [PeerOf(builder.value)], Blocks(lines))
  {
    hide Blocks, BuilderOf, Effective, Complete;
    var b := Blocks(lines);
    if b != [] {
      var n := |b| - 1;
      assert b == b[..n] + [b[n]];
      assert Good(b[n]) <==> Complete(builder.value);
    }
  }

  /** The configuration is accepted with these peers. */
  ghost predicate Accepted(lines: seq<Line>, peers: seq<Peer>) {
    Malformed !in lines && Built(peers, Blocks(lines)) && peers != [] && NamesUnique(peers) && PortsDisjoint(peers)
  }

  /** `parse_config` as far as it decides who owns which port. */
  method Accept(lines: seq<Line>) returns (r: Option<seq<Peer>>)
    ensures r.Some? ==> Accepted(lines, r.value)
    ensures r.None? ==> forall peers :: !Accepted(lines, peers)
  {
    hide Blocks, AllGood;
    r := ParsePeers(lines);
    if r.Some? {
      var ok := Validate(r.value);
      if !ok {
        BuiltOnce(r.value, Blocks(lines));
        r := None;
      }
    }
  }

  lemma BuiltOnce(peers: seq<Peer>, blocks: seq<seq<Line>>)
    requires Built(peers, blocks)
    ensures forall other :: Built(other, blocks) ==> other == peers
  {
    hide BuilderOf, Effective;
  }

  // ---- From the lines to the dispatched program ------------------------------------

  /** The ports that the [peer] block lists last. */
  function BlockPorts(block: seq<Line>): seq<Port>
    requires Good(block)
  {
    LastPorts(Effective(block)).value
  }

  /** Every frame is handed to the program of the one block that lists its port, or passed on when none does. */
  ghost predicate Dispatches(blocks: seq<seq<Line>>, fds: nat -> int, progs: map<nat, int>, portMap: map<Port, nat>)
    requires AllGood(blocks)
  {
    forall d, p :: DestinationPort(d) == Some(p) ==>
      && (forall i :: 0 <= i < |blocks| && p in BlockPorts(blocks[i]) ==> Dispatch(progs, portMap, d) == Call(fds(i)))
      && ((forall i :: 0 <= i < |blocks| ==> p !in BlockPorts(blocks[i])) ==> Dispatch(progs, portMap, d) == PassOn)
  }

  /**
   A configuration put into force on one interface: it is refused exactly when
   it is not acceptable or exceeds a map, and otherwise the dispatcher routes
   every frame by the lines of the configuration.
   */
  method Deploy(lines: seq<Line>, fds: nat -> int) returns (r: Option<Dispatcher>)
    ensures r.Some? ==> AllGood(Blocks(lines)) && Dispatches(Blocks(lines), fds, r.value.progs, r.value.portMap)
    ensures r.Some? <==>
              exists peers :: Accepted(lines, peers) && |peers| <= MAX_PEERS && |AllPorts(peers)| <= MAX_PORTS
  {
    hide Blocks, AllGood, Built, Dispatches, MapsOwners, AllPorts;
    var accepted := Accept(lines);
    if accepted.None? {
      return None;
    }
    var peers := accepted.value;
    BuiltOnce(peers, Blocks(lines));
    var d, ok := RegisterAll(peers, seq(|peers|, i requires 0 <= i < |peers| => fds(i)));
    if !ok {
      return None;
    }
    RoutesByLines(peers, Blocks(lines), fds, d.progs, d.portMap);
    r := Some(d);
  }

  lemma RoutesByLines(peers: seq<Peer>, blocks: seq<seq<Line>>, fds: nat -> int, progs: map<nat, int>,
                      portMap: map<Port, nat>)
    requires Built(peers, blocks) && PortsDisjoint(peers) && MapsOwners(portMap, peers)
    requires forall i :: 0 <= i < |peers| ==> i in progs && progs[i] == fds(i)
    ensures AllGood(blocks) && Dispatches(blocks, fds, progs, portMap)
  {
    hide Effective, DestinationPort, Dispatch, MapsOwners, PortsDisjoint;
    var list := seq(|peers|, i requires 0 <= i < |peers| => fds(i));
    forall d, p | DestinationPort(d) == Some(p)
      ensures forall i :: 0 <= i < |blocks| && p in BlockPorts(blocks[i]) ==>
                Dispatch(progs, portMap, d) == Call(fds(i))
      ensures (forall i :: 0 <= i < |blocks| ==> p !in BlockPorts(blocks[i])) ==> Dispatch(progs, portMap, d) == PassOn
    {
      DispatchReachesOwner(peers, list, progs, portMap, d, p);
      assert forall i :: 0 <= i < |peers| ==> peers[i].ports == BlockPorts(blocks[i]);
    }
  }
}
