/**
 Dynamic-peer routing: one egress thread and any number of ingress threads
 share three maps, each behind its own lock.  A step of a thread is one lock
 acquisition or one critical section; a schedule chooses which thread steps.
 */
module Routing {
  import opened Bytes
  import opened Codec
  import opened SharedAddr
  import Path

  /** A WireGuard sender or receiver index. */
  datatype Index = Index(word: bv32)

  const ZERO := Index(0)

  /** A running process: key stream, role, configured mode, remote ports and the WireGuard port. */
  datatype Config = Config(ks: Keystream, fill: Filler, isServer: bool, obfs: Mode, ports: seq<bv16>, wgPort: bv16)

  /**
   An authenticated packet: source, detected mode, decapsulated bytes, and (for statements only) the
   client that sent it.
   */
  datatype Inbound = Inbound(src: SocketAddr, mode: Mode, wg: Bytes, client: nat)

  /** A packet from the local WireGuard daemon. */
  datatype Outbound = Outbound(wg: Bytes, sport: bv16)

  /** Where a thread stands: waiting for a lock, or inside the critical section it guards. */
  datatype Pc =
    | Idle
    | WantBridge(o: Outbound) | InBridge(o: Outbound)
    | WantLookup(o: Outbound, c: Index) | InLookup(o: Outbound, c: Index)
    | WantMode(o: Outbound, c: Index, dest: SocketAddr) | InMode(o: Outbound, c: Index, dest: SocketAddr)
    | WantNote(p: Inbound) | InNote(p: Inbound)
    | WantInit(p: Inbound) | InInit(p: Inbound)
    | WantSession(p: Inbound) | InSession(p: Inbound)
    | WantRefresh(p: Inbound, c: Index) | InRefresh(p: Inbound, c: Index)

  /** History: what happened, in the order of the critical sections. */
  datatype Event =
    | Taken(o: Outbound)
    | Arrived(p: Inbound)
    | Noted(p: Inbound)
    | Bridged(s: Index, c: Index)
    | LearnedInit(p: Inbound)
    | LearnedData(p: Inbound, c: Index)
    | Sent(o: Outbound, c: Index, dest: SocketAddr, wire: SocketAddr, mode: Mode)

  datatype State = State(
    pcs: seq<Pc>,
    clientMap: map<Index, SocketAddr>,
    sessionMap: map<Index, Index>,
    clientObfs: map<SocketAddr, Mode>,
    sessionLock: Option<nat>,
    clientLock: Option<nat>,
    obfsLock: Option<nat>,
    log: seq<Event>)

  function Start(threads: nat): State {
    State(seq(threads + 1, _ => Idle), map[], map[], map[], None, None, None, [])
  }

  // ---- Packet fields -------------------------------------------------------

  function IndexAt(wg: Bytes, i: nat): Index
    requires i + 4 <= |wg|
  {
    Index(LeWord(wg[i..i + 4]))
  }

  function TypeOf(wg: Bytes): Byte { if |wg| == 0 then 0 else WgType(wg[0]) }

  /** Client index of a handshake initiation, server index of transport data. */
  function InboundIndex(p: Inbound): Index { if |p.wg| >= 8 then IndexAt(p.wg, 4) else ZERO }

  predicate IsInit(p: Inbound) { |p.wg| >= 8 && TypeOf(p.wg) == 1 && InboundIndex(p) != ZERO }

  predicate IsData(p: Inbound) { |p.wg| >= 8 && TypeOf(p.wg) == 4 }

  /** What the ingress path makes of a datagram: packet and mode when it authenticates. */
  function Authenticated(cfg: Config, bytes: Bytes): Option<(Bytes, Mode)> {
    if cfg.isServer then
      match Path.ServerIngress(cfg.ks, bytes)
      case Some(r) => Some((r.0.wg, r.1))
      case None => None
    else
      match Path.ClientIngress(cfg.ks, cfg.obfs, bytes)
      case Some(p) => Some((p.wg, cfg.obfs))
      case None => None
  }

  function WithPort(a: SocketAddr, port: bv16): SocketAddr { a.(port := port) }

  function WordValue(w: bv32): nat { w as nat }

  function Stripe(ts: nat, n: nat): (i: nat)
    requires n > 0
    ensures i < n
  {
    ts % n
  }

  /** The address put on the wire: SIP mode replaces the port by a configured one. */
  function FinalDest(cfg: Config, o: Outbound, mode: Mode, dest: SocketAddr): SocketAddr
    requires |o.wg| >= 16
  {
    if mode != Sip || cfg.ports == [] then dest
    else if Path.UsesRtp(o.wg) then
      if |cfg.ports| > 1 then
        var ts := Nonce(Wire(cfg.ks, cfg.fill, o.wg, cfg.isServer, o.sport, cfg.wgPort, mode));
        WithPort(dest, cfg.ports[1 + Stripe(WordValue(ts), |cfg.ports| - 1)])
      else dest
    else WithPort(dest, cfg.ports[0])
  }

  // ---- Steps ---------------------------------------------------------------

  datatype Input = Nothing | Datagram(src: SocketAddr, bytes: Bytes, client: nat) | Local(o: Outbound)

  predicate HoldsSession(pc: Pc) { pc.InBridge? || pc.InSession? || pc.WantRefresh? || pc.InRefresh? }
  predicate HoldsClient(pc: Pc) { pc.InLookup? || pc.InInit? || pc.InRefresh? }
  predicate HoldsObfs(pc: Pc) { pc.InMode? || pc.InNote? }

  predicate EgressPc(pc: Pc) {
    pc.Idle? || pc.WantBridge? || pc.InBridge? || pc.WantLookup? || pc.InLookup? || pc.WantMode? || pc.InMode?
  }

  predicate IngressPc(pc: Pc) {
    pc.Idle? || !EgressPc(pc)
  }

  /** Egress routing of a local packet: rekeys are dropped, responses bridge first, the rest look up. */
  function EgressBegin(o: Outbound): Pc {
    var ty := TypeOf(o.wg);
    if |o.wg| < 4 || ty == 1 then Idle
    else if ty == 2 && |o.wg| >= 12 then WantBridge(o)
    else if (ty == 3 || ty == 4) && |o.wg| >= 8 then WantLookup(o, IndexAt(o.wg, 4))
    else Idle
  }

  /** Ingress after the mode is noted: initiations and transport data update the maps. */
  function IngressRoute(p: Inbound): Pc {
    if IsInit(p) then WantInit(p) else if IsData(p) then WantSession(p) else Idle
  }

  /** What a thread does in one step: the position it moves to, and the event of the critical section it leaves. */
  datatype Effect = Effect(next: Pc, event: Option<Event>)

  function Quiet(next: Pc): Effect { Effect(next, None) }

  /** The lock a position waits for is free. */
  predicate MayEnter(s: State, pc: Pc) {
    match pc
    case WantBridge(_) | WantSession(_) => s.sessionLock.None?
    case WantLookup(_, _) | WantInit(_) | WantRefresh(_, _) => s.clientLock.None?
    case WantMode(_, _, _) | WantNote(_) => s.obfsLock.None?
    case _ => true
  }

  /** The encapsulated packet leaves; packets under 16 bytes are not encapsulated. */
  function Emit(cfg: Config, o: Outbound, c: Index, dest: SocketAddr, mode: Mode): Effect {
    Effect(Idle, if |o.wg| < 16 then None else Some(Sent(o, c, dest, FinalDest(cfg, o, mode, dest), mode)))
  }

  /** An idle thread: egress takes a local packet, ingress a datagram, which it drops unless authentic. */
  function Begin(cfg: Config, t: nat, input: Input): Effect {
    if t == 0 then
      var pc := if input.Local? then EgressBegin(input.o) else Idle;
      Effect(pc, if pc.Idle? then None else Some(Taken(input.o)))
    else if input.Datagram? then
      match Authenticated(cfg, input.bytes)
      case None => Quiet(Idle)
      case Some(r) =>
        var p := Inbound(input.src, r.1, r.0, input.client);
        Effect(if cfg.isServer then WantNote(p) else IngressRoute(p), Some(Arrived(p)))
    else Quiet(Idle)
  }

  /** The step of thread t; None when it waits for a lock that is taken. */
  function Act(cfg: Config, s: State, t: nat, input: Input): Option<Effect>
    requires t < |s.pcs|
  {
    if !MayEnter(s, s.pcs[t]) then None
    else
      match s.pcs[t]
      case Idle => Some(Begin(cfg, t, input))
      // egress
      case WantBridge(o) => Some(Quiet(InBridge(o)))
      case InBridge(o) =>
        if |o.wg| < 12 then Some(Quiet(Idle))
        else Some(Effect(WantLookup(o, IndexAt(o.wg, 8)), Some(Bridged(IndexAt(o.wg, 4), IndexAt(o.wg, 8)))))
      case WantLookup(o, c) => Some(Quiet(InLookup(o, c)))
      case InLookup(o, c) =>
        if c !in s.clientMap then Some(Quiet(Idle))
        else if cfg.isServer then Some(Quiet(WantMode(o, c, s.clientMap[c])))
        else Some(Emit(cfg, o, c, s.clientMap[c], cfg.obfs))
      case WantMode(o, c, dest) => Some(Quiet(InMode(o, c, dest)))
      case InMode(o, c, dest) => Some(Emit(cfg, o, c, dest, if dest in s.clientObfs then s.clientObfs[dest]
          else cfg.obfs))
      // ingress
      case WantNote(p) => Some(Quiet(InNote(p)))
      case InNote(p) => Some(Effect(IngressRoute(p), Some(Noted(p))))
      case WantInit(p) => Some(Quiet(InInit(p)))
      case InInit(p) => Some(Effect(Idle, Some(LearnedInit(p))))
      case WantSession(p) => Some(Quiet(InSession(p)))
      case InSession(p) =>
        // the session lock is kept while the client lock is taken
        if InboundIndex(p) in s.sessionMap then Some(Quiet(WantRefresh(p, s.sessionMap[InboundIndex(p)])))
            else Some(Quiet(Idle))
      case WantRefresh(p, c) => Some(Quiet(InRefresh(p, c)))
      case InRefresh(p, c) => Some(Effect(Idle, Some(LearnedData(p, c))))
  }

  /** A lock follows the position of the thread that moves. */
  function NewLock(lock: Option<nat>, held: bool, holds: bool, t: nat): Option<nat> {
    if holds then Some(t) else if held then None else lock
  }

  /** The map write of a critical section. */
  function Write(s: State, e: Event): State {
    match e
    case Noted(p) => s.(clientObfs := s.clientObfs[p.src := p.mode])
    case Bridged(si, ci) => s.(sessionMap := s.sessionMap[si := ci])
    case LearnedInit(p) => s.(clientMap := s.clientMap[InboundIndex(p) := p.src])
    case LearnedData(p, c) => s.(clientMap := s.clientMap[c := p.src])
    case _ => s
  }

  function Move(s: State, t: nat, next: Pc): State
    requires t < |s.pcs|
  {
    s.(pcs := s.pcs[t := next],
       sessionLock := NewLock(s.sessionLock, HoldsSession(s.pcs[t]), HoldsSession(next), t),
       clientLock := NewLock(s.clientLock, HoldsClient(s.pcs[t]), HoldsClient(next), t),
       obfsLock := NewLock(s.obfsLock, HoldsObfs(s.pcs[t]), HoldsObfs(next), t))
  }

  function Apply(s: State, t: nat, ef: Effect): State
    requires t < |s.pcs|
  {
    match ef.event
    case None => Move(s, t, ef.next)
    case Some(e) => var w := Write(Move(s, t, ef.next), e); w.(log := w.log + [e])
  }

  /** A schedule: which thread is given its turn, and what it would receive if idle.  A blocked turn changes nothing. */
  type Schedule = seq<(nat, Input)>

  function Turn(cfg: Config, s: State, turn: (nat, Input)): State {
    if turn.0 >= |s.pcs| then s
    else
      match Act(cfg, s, turn.0, turn.1)
      case Some(ef) => Apply(s, turn.0, ef)
      case None => s
  }

  /** The state after a schedule, from an initial state with the given number of ingress threads. */
  function Run(cfg: Config, threads: nat, sched: Schedule): State {
    if sched == [] then Start(threads) else Turn(cfg, Run(cfg, threads, sched[..|sched| - 1]), sched[|sched| - 1])
  }

  // ---- What the history says -----------------------------------------------

  /** The position behind the last local packet taken up. */
  function TakenAt(log: seq<Event>): (k: nat)
    ensures k <= |log| && (k > 0 ==> log[k - 1].Taken?) && forall i :: k <= i < |log| ==> !log[i].Taken?
  {
    if log == [] || log[|log| - 1].Taken? then |log| else TakenAt(log[..|log| - 1])
  }

  /** The client index a local packet is for: the receiver of a response, cookie reply or transport data. */
  predicate Addressed(o: Outbound, c: Index) {
    || (TypeOf(o.wg) == 2 && |o.wg| >= 12 && c == IndexAt(o.wg, 8))
    || ((TypeOf(o.wg) == 3 || TypeOf(o.wg) == 4) && |o.wg| >= 8 && c == IndexAt(o.wg, 4))
  }

  /** The client index a server index was last bridged to. */
  function LatestBridge(log: seq<Event>, s: Index): Option<Index> {
    if log == [] then None
    else
      match log[|log| - 1]
      case Bridged(s', c) => if s' == s then Some(c) else LatestBridge(log[..|log| - 1], s)
      case _ => LatestBridge(log[..|log| - 1], s)
  }

  /**
   The client index an event attributes its packet to: the sender of an initiation, or the bridge of
   transport data.
   */
  function Attributed(log: seq<Event>, e: Event): Option<Index> {
    match e
    case LearnedInit(p) => Some(InboundIndex(p))
    case LearnedData(p, _) => LatestBridge(log, InboundIndex(p))
    case _ => None
  }

  /** The latest source attributed to a client index. */
  function LatestSource(log: seq<Event>, c: Index): Option<SocketAddr> {
    if log == [] then None
    else
      var init, e := log[..|log| - 1], log[|log| - 1];
      if Attributed(init, e) == Some(c) then Some(e.p.src) else LatestSource(init, c)
  }

  /** The mode last detected from an address. */
  function LatestMode(log: seq<Event>, a: SocketAddr): Option<Mode> {
    if log == [] then None
    else
      match log[|log| - 1]
      case Noted(p) => if p.src == a then Some(p.mode) else LatestMode(log[..|log| - 1], a)
      case _ => LatestMode(log[..|log| - 1], a)
  }
}
