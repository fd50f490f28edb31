/** A run in which a SIP reply to one client goes to an address that only another client behind the same host used. */
module RoutingWitness {
  import opened Bytes
  import opened Codec
  import opened SharedAddr
  import opened Routing
  import opened RoutingLaws
  import opened RoutingTheorems
  import Path
  import Sip
  import SipLaws
  import SipSize

  // ---- Whole handlings of a packet, as turns ---------------------------------------

  /** Both threads idle and no lock held. */
  predicate AtRest(s: State) {
    s.pcs == [Idle, Idle] && s.sessionLock.None? && s.clientLock.None? && s.obfsLock.None?
  }

  function Turns(t: nat, first: Input, n: nat): Schedule
    ensures |Turns(t, first, n)| == n + 1
  {
    if n == 0 then [(t, first)] else Turns(t, first, n - 1) + [(t, Nothing)]
  }

  function After(cfg: Config, s: State, sched: Schedule): State {
    if sched == [] then s else Turn(cfg, After(cfg, s, sched[..|sched| - 1]), sched[|sched| - 1])
  }

  lemma {:induction false} RunAfter(cfg: Config, threads: nat, a: Schedule, b: Schedule)
    ensures Run(cfg, threads, a + b) == After(cfg, Run(cfg, threads, a), b)
  {
    hide Turn;
    if b == [] {
      assert a + b == a;
    } else {
      var n := |b| - 1;
      RunAfter(cfg, threads, a, b[..n]);
      RunAppend(cfg, threads, a + b[..n], b[n]);
      assert a + b == (a + b[..n]) + [b[n]];
    }
  }

  lemma OneMore(cfg: Config, s: State, t: nat, first: Input, n: nat)
    ensures After(cfg, s, Turns(t, first, n + 1)) == Turn(cfg, After(cfg, s, Turns(t, first, n)), (t, Nothing))
  {
    hide Turn;
    var b := Turns(t, first, n + 1);
    assert b[..|b| - 1] == Turns(t, first, n);
  }

  lemma FirstTurn(cfg: Config, s: State, t: nat, first: Input)
    ensures After(cfg, s, Turns(t, first, 0)) == Turn(cfg, s, (t, first))
  {
    hide Turn;
    var b := Turns(t, first, 0);
    assert b[..0] == [];
    assert After(cfg, s, []) == s;
  }

  /** The state after a server has taken in an authenticated initiation. */
  function Learned(s: State, p: Inbound): State {
    s.(clientObfs := s.clientObfs[p.src := p.mode], clientMap := s.clientMap[InboundIndex(p) := p.src],
       log := s.log + [Arrived(p)] + [Noted(p)] + [LearnedInit(p)])
  }

  lemma Arrives(cfg: Config, s: State, bytes: Bytes, p: Inbound)
    requires AtRest(s) && cfg.isServer && Authenticated(cfg, bytes) == Some((p.wg, p.mode))
    ensures Turn(cfg, s, (1, Datagram(p.src, bytes, p.client)))
            == s.(pcs := [Idle, WantNote(p)], log := s.log + [Arrived(p)])
  {
    hide Authenticated, IsInit, IsData, InboundIndex;
    assert Inbound(p.src, p.mode, p.wg, p.client) == p;
    assert s.pcs[1 := WantNote(p)] == [Idle, WantNote(p)];
  }

  lemma EntersNote(cfg: Config, s: State, p: Inbound)
    requires s.pcs == [Idle, WantNote(p)] && s.obfsLock.None?
    ensures Turn(cfg, s, (1, Nothing)) == s.(pcs := [Idle, InNote(p)], obfsLock := Some(1))
  {
    hide IsInit, IsData, InboundIndex;
    assert s.pcs[1 := InNote(p)] == [Idle, InNote(p)];
  }

  lemma Notes(cfg: Config, s: State, p: Inbound)
    requires s.pcs == [Idle, InNote(p)] && s.obfsLock == Some(1) && IsInit(p)
    ensures Turn(cfg, s, (1, Nothing)) == s.(pcs := [Idle, WantInit(p)], obfsLock := None,
                                             clientObfs := s.clientObfs[p.src := p.mode], log := s.log + [Noted(p)])
  {
    hide IsInit, IsData, InboundIndex;
    assert s.pcs[1 := WantInit(p)] == [Idle, WantInit(p)];
  }

  lemma EntersInit(cfg: Config, s: State, p: Inbound)
    requires s.pcs == [Idle, WantInit(p)] && s.clientLock.None?
    ensures Turn(cfg, s, (1, Nothing)) == s.(pcs := [Idle, InInit(p)], clientLock := Some(1))
  {
    hide IsInit, IsData, InboundIndex;
    assert s.pcs[1 := InInit(p)] == [Idle, InInit(p)];
  }

  lemma Learns(cfg: Config, s: State, p: Inbound)
    requires s.pcs == [Idle, InInit(p)] && s.clientLock == Some(1)
    ensures Turn(cfg, s, (1, Nothing)) == s.(pcs := [Idle, Idle], clientLock := None,
                                             clientMap := s.clientMap[InboundIndex(p) := p.src],
                                             log := s.log + [LearnedInit(p)])
  {
    hide IsInit, IsData, InboundIndex;
    assert s.pcs[1 := Idle] == [Idle, Idle];
  }

  lemma TakesInit(cfg: Config, s: State, bytes: Bytes, p: Inbound)
    requires AtRest(s) && cfg.isServer && Authenticated(cfg, bytes) == Some((p.wg, p.mode)) && IsInit(p)
    ensures After(cfg, s, Turns(1, Datagram(p.src, bytes, p.client), 4)) == Learned(s, p)
  {
    hide Authenticated, IsInit, IsData, InboundIndex, After, Turns, Turn;
    var d := Datagram(p.src, bytes, p.client);
    FirstTurn(cfg, s, 1, d);
    Arrives(cfg, s, bytes, p);
    OneMore(cfg, s, 1, d, 0);
    EntersNote(cfg, After(cfg, s, Turns(1, d, 0)), p);
    OneMore(cfg, s, 1, d, 1);
    Notes(cfg, After(cfg, s, Turns(1, d, 1)), p);
    OneMore(cfg, s, 1, d, 2);
    EntersInit(cfg, After(cfg, s, Turns(1, d, 2)), p);
    OneMore(cfg, s, 1, d, 3);
    Learns(cfg, After(cfg, s, Turns(1, d, 3)), p);
  }

  /** The events of answering a handshake on a server. */
  function Answered(cfg: Config, s: State, o: Outbound, dest: SocketAddr, mode: Mode): State
    requires |o.wg| >= 16
  {
    var si, ci := IndexAt(o.wg, 4), IndexAt(o.wg, 8);
    s.(sessionMap := s.sessionMap[si := ci],
       log := s.log + [Taken(o)] + [Bridged(si, ci)] + [Sent(o, ci, dest, FinalDest(cfg, o, mode, dest), mode)])
  }

  lemma TakesUp(cfg: Config, s: State, o: Outbound)
    requires AtRest(s) && |o.wg| >= 16 && TypeOf(o.wg) == 2
    ensures Turn(cfg, s, (0, Local(o))) == s.(pcs := [WantBridge(o), Idle], log := s.log + [Taken(o)])
  {
    hide IndexAt, TypeOf, Authenticated, InboundIndex;
    assert s.pcs[0 := WantBridge(o)] == [WantBridge(o), Idle];
  }

  lemma EntersBridge(cfg: Config, s: State, o: Outbound)
    requires s.pcs == [WantBridge(o), Idle] && s.sessionLock.None?
    ensures Turn(cfg, s, (0, Nothing)) == s.(pcs := [InBridge(o), Idle], sessionLock := Some(0))
  {
    hide InboundIndex;
    assert s.pcs[0 := InBridge(o)] == [InBridge(o), Idle];
  }

  lemma Bridges(cfg: Config, s: State, o: Outbound)
    requires s.pcs == [InBridge(o), Idle] && s.sessionLock == Some(0) && |o.wg| >= 16
    ensures var si, ci := IndexAt(o.wg, 4), IndexAt(o.wg, 8);
            Turn(cfg, s, (0, Nothing)) == s.(pcs := [WantLookup(o, ci), Idle], sessionLock := None,
                                             sessionMap := s.sessionMap[si := ci], log := s.log + [Bridged(si, ci)])
  {
    hide IndexAt, InboundIndex;
    assert s.pcs[0 := WantLookup(o, IndexAt(o.wg, 8))] == [WantLookup(o, IndexAt(o.wg, 8)), Idle];
  }

  lemma EntersLookup(cfg: Config, s: State, o: Outbound, c: Index)
    requires s.pcs == [WantLookup(o, c), Idle] && s.clientLock.None?
    ensures Turn(cfg, s, (0, Nothing)) == s.(pcs := [InLookup(o, c), Idle], clientLock := Some(0))
  {
    hide InboundIndex;
    assert s.pcs[0 := InLookup(o, c)] == [InLookup(o, c), Idle];
  }

  lemma LooksUp(cfg: Config, s: State, o: Outbound, c: Index)
    requires s.pcs == [InLookup(o, c), Idle] && s.clientLock == Some(0) && cfg.isServer && c in s.clientMap
    ensures Turn(cfg, s, (0, Nothing)) == s.(pcs := [WantMode(o, c, s.clientMap[c]), Idle], clientLock := None)
  {
    hide InboundIndex;
    assert s.pcs[0 := WantMode(o, c, s.clientMap[c])] == [WantMode(o, c, s.clientMap[c]), Idle];
  }

  lemma EntersMode(cfg: Config, s: State, o: Outbound, c: Index, dest: SocketAddr)
    requires s.pcs == [WantMode(o, c, dest), Idle] && s.obfsLock.None?
    ensures Turn(cfg, s, (0, Nothing)) == s.(pcs := [InMode(o, c, dest), Idle], obfsLock := Some(0))
  {
    hide InboundIndex;
    assert s.pcs[0 := InMode(o, c, dest)] == [InMode(o, c, dest), Idle];
  }

  lemma SendsOut(cfg: Config, s: State, o: Outbound, c: Index, dest: SocketAddr)
    requires s.pcs == [InMode(o, c, dest), Idle] && s.obfsLock == Some(0) && dest in s.clientObfs && |o.wg| >= 16
    ensures var mode := s.clientObfs[dest];
            Turn(cfg, s, (0, Nothing)) == s.(pcs := [Idle, Idle], obfsLock := None,
                                             log := s.log + [Sent(o, c, dest, FinalDest(cfg, o, mode, dest), mode)])
  {
    hide InboundIndex, FinalDest;
    assert s.pcs[0 := Idle] == [Idle, Idle];
  }

  lemma Answers(cfg: Config, s: State, o: Outbound, dest: SocketAddr, mode: Mode)
    requires AtRest(s) && cfg.isServer && |o.wg| >= 16 && TypeOf(o.wg) == 2
    requires IndexAt(o.wg, 8) in s.clientMap && s.clientMap[IndexAt(o.wg, 8)] == dest
    requires dest in s.clientObfs && s.clientObfs[dest] == mode
    ensures After(cfg, s, Turns(0, Local(o), 6)) == Answered(cfg, s, o, dest, mode)
  {
    hide IndexAt, TypeOf, After, Turns, FinalDest, Turn;
    var i, ci := Local(o), IndexAt(o.wg, 8);
    FirstTurn(cfg, s, 0, i);
    TakesUp(cfg, s, o);
    OneMore(cfg, s, 0, i, 0);
    EntersBridge(cfg, After(cfg, s, Turns(0, i, 0)), o);
    OneMore(cfg, s, 0, i, 1);
    Bridges(cfg, After(cfg, s, Turns(0, i, 1)), o);
    OneMore(cfg, s, 0, i, 2);
    EntersLookup(cfg, After(cfg, s, Turns(0, i, 2)), o, ci);
    OneMore(cfg, s, 0, i, 3);
    LooksUp(cfg, After(cfg, s, Turns(0, i, 3)), o, ci);
    OneMore(cfg, s, 0, i, 4);
    EntersMode(cfg, After(cfg, s, Turns(0, i, 4)), o, ci, dest);
    OneMore(cfg, s, 0, i, 5);
    SendsOut(cfg, After(cfg, s, Turns(0, i, 5)), o, ci, dest);
  }

  // ---- Two clients behind one host -------------------------------------------------

  /** Client 1 sends from port 1000, client 2 from 5060, which is also the server's first remote port. */
  const FIRST := V4(0x0A000001, 1000)
  const SECOND := V4(0x0A000001, 5060)

  const ZERO_WORDS: Words := [0, 0, 0, 0, 0, 0, 0, 0, 0, 0, 0, 0, 0, 0, 0, 0]

  function ZeroStream(counter: bv32, nonce: bv32): Words { ZERO_WORDS }

  const NO_TEXT := Sip.Fields([], [], [], [], 0, 0, 0, 0, 0, 0, 0, 0, 0)
  const ENV := Path.Env(0, [], NO_TEXT)

  function Server(fill: Filler): Config { Config(ZeroStream, fill, true, Gut, [5060], 51820) }

  /** A handshake message of a type with an index at byte 4 and another at byte 8. */
  function Message(ty: Byte, a: Byte, b: Byte): (m: Bytes)
    ensures |m| == 148
  {
    [ty, 0, 0, 0, a, 0, 0, 0, b, 0, 0, 0] + Zeros(136)
  }

  lemma SmallIndex(m: Bytes, i: nat, a: Byte)
    requires i + 4 <= |m| && m[i..i + 4] == [a, 0, 0, 0] && (a == 0 || a == 1 || a == 2 || a == 7)
    ensures IndexAt(m, i) == Index(a as bv32)
  {
  }

  lemma MessageFields(ty: Byte, a: Byte, b: Byte)
    requires ty == 1 || ty == 2
    requires (a == 1 || a == 2 || a == 7) && (b == 0 || b == 1)
    ensures var m := Message(ty, a, b);
            TypeOf(m) == ty && IndexAt(m, 4) == Index(a as bv32) && IndexAt(m, 8) == Index(b as bv32)
  {
    hide IndexAt;
    var m := Message(ty, a, b);
    assert m[4..8] == [a, 0, 0, 0] && m[8..12] == [b, 0, 0, 0];
    SmallIndex(m, 4, a);
    SmallIndex(m, 8, b);
  }

  function Sends(fill: Filler, wg: Bytes): Bytes
    requires |wg| >= 16
  {
    Path.Egress(ZeroStream, fill, wg, false, 0, 0, Sip, ENV)
  }

  /** The server accepts what a SIP client sends for an initiation. */
  lemma Accepts(fill: Filler, a: Byte)
    requires a == 1 || a == 2
    ensures var wg := Message(1, a, 0); Authenticated(Server(fill), Sends(fill, wg)) == Some((wg, Sip))
  {
    hide Path.Egress, Path.ServerIngress, Wire, Nonce, SealPorts, Path.SipFits, Path.LooksQuic, Path.Readable;
    var wg := Message(1, a, 0);
    FirstByteZero(fill, wg);
    Fits(fill, wg);
    Path.ServerDelivers(ZeroStream, fill, wg, false, 0, 0, Sip, ENV);
  }

  lemma FirstByteZero(fill: Filler, wg: Bytes)
    requires |wg| >= 16
    ensures !Path.LooksQuic(ZeroStream, Wire(ZeroStream, fill, wg, false, 0, 0, Sip))
    ensures |Wire(ZeroStream, fill, wg, false, 0, 0, Sip)| <= |wg| + 74
  {
    hide Nonce, SealPorts, MaskAs, WordBytes, BallastCode, BallastFor, WgType, Verify;
    var w := Wire(ZeroStream, fill, wg, false, 0, 0, Sip);
    assert w[0] == LeBytes(0)[0] == 0;
  }

  lemma Fits(fill: Filler, wg: Bytes)
    requires 16 <= |wg| <= 6000
    ensures Path.Readable(ZeroStream, fill, wg, false, 0, 0, Sip, ENV)
  {
    hide Wire, Path.SipFits;
    FirstByteZero(fill, wg);
    Path.ShortFieldsFit(ENV, wg, Wire(ZeroStream, fill, wg, false, 0, 0, Sip));
  }

  const HELLO_1 := Inbound(FIRST, Sip, Message(1, 1, 0), 1)
  const HELLO_2 := Inbound(SECOND, Sip, Message(1, 2, 0), 2)
  const REPLY := Outbound(Message(2, 7, 1), 51820)

  /** Both clients introduce themselves, then the server answers the first. */
  function Crossing(fill: Filler): Schedule {
    Turns(1, Datagram(FIRST, Sends(fill, Message(1, 1, 0)), 1), 4)
    + Turns(1, Datagram(SECOND, Sends(fill, Message(1, 2, 0)), 2), 4)
    + Turns(0, Local(REPLY), 6)
  }

  const CROSSED: seq<Event> :=
    [Arrived(HELLO_1), Noted(HELLO_1), LearnedInit(HELLO_1), Arrived(HELLO_2), Noted(HELLO_2), LearnedInit(HELLO_2),
     Taken(REPLY), Bridged(Index(7), Index(1)), Sent(REPLY, Index(1), FIRST, SECOND, Sip)]

  lemma CrossingLog(fill: Filler)
    ensures Run(Server(fill), 1, Crossing(fill)).log == CROSSED
  {
    hide Turns, After, Sends, Authenticated, IndexAt, Message, TypeOf, FinalDest, Run;
    var cfg := Server(fill);
    var a := Turns(1, Datagram(FIRST, Sends(fill, Message(1, 1, 0)), 1), 4);
    var b := Turns(1, Datagram(SECOND, Sends(fill, Message(1, 2, 0)), 2), 4);
    var c := Turns(0, Local(REPLY), 6);
    Accepts(fill, 1);
    Accepts(fill, 2);
    MessageFields(1, 1, 0);
    MessageFields(1, 2, 0);
    MessageFields(2, 7, 1);
    var s0 := Run(cfg, 1, []);
    StartsAtRest(cfg);
    RunAfter(cfg, 1, [], a);
    TakesInit(cfg, s0, Sends(fill, Message(1, 1, 0)), HELLO_1);
    var s1 := Learned(s0, HELLO_1);
    assert [] + a == a;
    RunAfter(cfg, 1, a, b);
    TakesInit(cfg, s1, Sends(fill, Message(1, 2, 0)), HELLO_2);
    var s2 := Learned(s1, HELLO_2);
    RunAfter(cfg, 1, a + b, c);
    Answers(cfg, s2, REPLY, FIRST, Sip);
    ReplyPort(cfg);
    assert Answered(cfg, s2, REPLY, FIRST, Sip).log == CROSSED;
  }

  lemma StartsAtRest(cfg: Config)
    ensures var s := Run(cfg, 1, []); AtRest(s) && s.log == [] && s.clientMap == map[] && s.clientObfs == map[]
  {
    assert Start(1).pcs == [Idle, Idle];
  }

  lemma ReplyPort(cfg: Config)
    requires cfg.ports == [5060]
    ensures FinalDest(cfg, REPLY, Sip, FIRST) == SECOND
  {
  }

  /** The client an index belongs to, in this run. */
  function Owner(i: Index): nat { if i == Index(2) then 2 else 1 }

  function Session(i: Index): nat { 1 }

  /** The packets and bridges of that history. */
  lemma CrossedEvents(p: Inbound, i: Index, c: Index)
    ensures Arrived(p) in CROSSED <==> p == HELLO_1 || p == HELLO_2
    ensures Bridged(i, c) in CROSSED <==> i == Index(7) && c == Index(1)
  {
    hide Message;
  }

  lemma CrossedDistinct()
    ensures Distinct(CROSSED, Owner, Session)
  {
    hide Message, IndexAt, TypeOf, CROSSED;
    MessageFields(1, 1, 0);
    MessageFields(1, 2, 0);
    forall p | Arrived(p) in CROSSED ensures IsInit(p) ==> Owner(InboundIndex(p)) == p.client
      ensures !IsData(p)
    {
      CrossedEvents(p, Index(0), Index(0));
    }
    forall i, c | Bridged(i, c) in CROSSED ensures Session(i) == Owner(c) {
      CrossedEvents(HELLO_1, i, c);
    }
  }

  /**
   With distinct indices throughout, the reply for client 1 goes to the address
   of client 2, from which client 1 never sent anything.
   */
  lemma RepliesMayCross(fill: Filler)
    ensures var log := Run(Server(fill), 1, Crossing(fill)).log;
            && Distinct(log, Owner, Session) && |log| == 9
            && log[8] == Sent(REPLY, Index(1), FIRST, SECOND, Sip) && Owner(Index(1)) == 1
            && Arrived(HELLO_2) in log && HELLO_2.src == SECOND
            && (forall p :: Arrived(p) in log && p.src == SECOND ==> p.client == 2)
  {
    hide Run, Message, Distinct, Crossing;
    CrossingLog(fill);
    CrossedDistinct();
    forall p | Arrived(p) in CROSSED && p.src == SECOND ensures p.client == 2 {
      CrossedEvents(p, Index(0), Index(0));
    }
    CrossedEvents(HELLO_2, Index(0), Index(0));
  }
}
