/** What holds of the routing protocol in every schedule. */
module RoutingTheorems {
  import opened Bytes
  import opened Codec
  import opened SharedAddr
  import opened Routing
  import opened RoutingLaws
  import Path

  // ---- Safety --------------------------------------------------------------

  lemma InPrefix(log: seq<Event>, j: nat, i: nat, e: Event)
    requires j <= i <= |log| && e in log[..j]
    ensures e in log[..i]
  {
    var m :| 0 <= m < j && log[..j][m] == e;
    assert log[..i][m] == e;
  }

  /** The learned packet behind an address that was the latest source of a client. */
  lemma SourceArrived(cfg: Config, log: seq<Event>, c: Index, dest: SocketAddr) returns (k: nat)
    requires LogOk(cfg, log) && WasLatest(log, c, dest)
    ensures k < |log| && Attributed(log[..k], log[k]) == Some(c) && log[k].p.src == dest
    ensures EventOk(cfg, log[..k], log[k]) && Arrived(log[k].p) in log
  {
    hide LatestSource, LatestBridge, LatestMode, FinalDest, IsInit, IsData, InboundIndex;
    var n :| TakenAt(log) <= n <= |log| && LatestSource(log[..n], c) == Some(dest);
    k := SourceLearned(log[..n], c);
    assert log[..n][..k] == log[..k] && log[..n][k] == log[k];
    assert EventOk(cfg, log[..k], log[k]);
    InPrefix(log, k, |log|, Arrived(log[k].p));
    assert log[..|log|] == log;
  }

  lemma PrefixOk(cfg: Config, log: seq<Event>, i: nat)
    requires LogOk(cfg, log) && i <= |log|
    ensures LogOk(cfg, log[..i])
  {
    hide EventOk;
    forall j | 0 <= j < i ensures EventOk(cfg, log[..i][..j], log[..i][j]) {
      assert log[..i][..j] == log[..j];
    }
  }

  /** j is where a packet was taken up whose sending stands at i, with no other in between. */
  ghost predicate TakenUp(log: seq<Event>, j: nat, i: nat)
    requires i < |log| && log[i].Sent?
  {
    j < i && log[j] == Taken(log[i].o) && forall m :: j < m < i ==> !log[m].Taken?
  }

  /** At some time between j and i the destination was the latest source attributed to the client. */
  ghost predicate LatestBetween(log: seq<Event>, j: nat, i: nat)
    requires i < |log| && log[i].Sent?
  {
    exists k :: j < k <= i && LatestSource(log[..k], log[i].c) == Some(log[i].dest)
  }

  /**
   In every schedule each packet sent is for the client its receiver index
   names, and goes to the host that was the latest source attributed to that
   client at some time after the packet was taken up; an authenticated packet
   from that address arrived before.
   */
  lemma RoutingSafety(cfg: Config, threads: nat, sched: Schedule, i: nat)
    requires i < |Run(cfg, threads, sched).log| && Run(cfg, threads, sched).log[i].Sent?
    ensures var log := Run(cfg, threads, sched).log;
            && Addressed(log[i].o, log[i].c)
            && (exists j :: TakenUp(log, j, i) && LatestBetween(log, j, i))
            && (exists p :: Arrived(p) in log[..i] && p.src == log[i].dest)
            && |log[i].o.wg| >= 16 && WithPort(log[i].wire, log[i].dest.port) == log[i].dest
            && (log[i].wire == log[i].dest <==> KeepsPort(cfg, log[i].o, log[i].mode, log[i].dest))
  {
    hide Run, LocksOk, MapsOk, PcsOk, LatestSource, LatestBridge, LatestMode, FinalDest, WasLatest, Taking, Addressed;
    RunInv(cfg, threads, sched);
    var log := Run(cfg, threads, sched).log;
    assert EventOk(cfg, log[..i], log[i]);
    PrefixOk(cfg, log, i);
    var k := SourceArrived(cfg, log[..i], log[i].c, log[i].dest);
    WireAddress(cfg, log[i].o, log[i].mode, log[i].dest);
    var j := SinceTaken(log, i);
  }

  lemma SinceTaken(log: seq<Event>, i: nat) returns (j: nat)
    requires i < |log| && log[i].Sent?
    requires Taking(log[..i], log[i].o) && WasLatest(log[..i], log[i].c, log[i].dest)
    ensures TakenUp(log, j, i) && LatestBetween(log, j, i)
  {
    hide LatestSource;
    var init := log[..i];
    j := TakenAt(init) - 1;
    var k :| TakenAt(init) <= k <= |init| && LatestSource(init[..k], log[i].c) == Some(log[i].dest);
    assert init[..k] == log[..k];
    forall m | j < m < i ensures !log[m].Taken? {
      assert log[m] == init[m];
    }
  }

  /** The port that SIP mode puts in place of the learned one. */
  function SipPort(cfg: Config, o: Outbound): bv16
    requires |o.wg| >= 16 && cfg.ports != []
  {
    if Path.UsesRtp(o.wg) && |cfg.ports| > 1 then
      var ts := Nonce(Wire(cfg.ks, cfg.fill, o.wg, cfg.isServer, o.sport, cfg.wgPort, Sip));
      cfg.ports[1 + Stripe(WordValue(ts), |cfg.ports| - 1)]
    else cfg.ports[0]
  }

  /** A reply keeps the learned port: no SIP, no port to put in its place, a single one for RTP, or the same one. */
  predicate KeepsPort(cfg: Config, o: Outbound, mode: Mode, dest: SocketAddr)
    requires |o.wg| >= 16
  {
    mode != Sip || cfg.ports == [] || (Path.UsesRtp(o.wg) && |cfg.ports| == 1) || dest.port == SipPort(cfg, o)
  }

  /**
   The wire address is the learned one if and only if the port is kept; otherwise it is a configured
   port of the same host.
   */
  lemma WireAddress(cfg: Config, o: Outbound, mode: Mode, dest: SocketAddr)
    requires |o.wg| >= 16
    ensures var w := FinalDest(cfg, o, mode, dest);
            && (w == dest <==> KeepsPort(cfg, o, mode, dest))
            && WithPort(w, dest.port) == dest && (w != dest ==> w.port == SipPort(cfg, o) && w.port in cfg.ports)
  {
    hide Nonce, Wire, WordValue, Stripe;
  }

  /** In every schedule the client map is exactly the latest attributed source of each client. */
  lemma ClientMapIsLatest(cfg: Config, threads: nat, sched: Schedule, c: Index)
    ensures var s := Run(cfg, threads, sched);
            LatestSource(s.log, c) == if c in s.clientMap then Some(s.clientMap[c]) else None
  {
    hide Run, LocksOk, PcsOk, LogOk, MapsOk, LatestSource;
    RunInv(cfg, threads, sched);
    SourceNow(Run(cfg, threads, sched), c);
  }

  /** On a server every address in the client map has a noted mode. */
  lemma RoutedAddressesHaveModes(cfg: Config, threads: nat, sched: Schedule, c: Index)
    requires cfg.isServer && c in Run(cfg, threads, sched).clientMap
    ensures var s := Run(cfg, threads, sched); s.clientMap[c] in s.clientObfs
  {
    hide Run, LocksOk, PcsOk, LogOk, MapsOk, LatestMode, WasLatest;
    var s := Run(cfg, threads, sched);
    RunInv(cfg, threads, sched);
    LookedUp(s, c);
    ModeNow(cfg, s, c, s.clientMap[c]);
  }

  /** On a server every reply uses the mode last detected from its destination, never the default. */
  lemma RepliesUseDetectedMode(cfg: Config, threads: nat, sched: Schedule, i: nat)
    requires cfg.isServer && i < |Run(cfg, threads, sched).log| && Run(cfg, threads, sched).log[i].Sent?
    ensures var log := Run(cfg, threads, sched).log; LatestMode(log[..i], log[i].dest) == Some(log[i].mode)
  {
    hide Run, LocksOk, MapsOk, PcsOk, LatestMode, WasLatest, FinalDest;
    RunInv(cfg, threads, sched);
    var log := Run(cfg, threads, sched).log;
    assert EventOk(cfg, log[..i], log[i]);
  }

  // ---- Isolation -----------------------------------------------------------

  /**
   WireGuard indices belong to one client each: initiations carry an index of
   the client that sends them, transport data an index of its own session, and
   responses pair a session with a client index of the same client.
   */
  ghost predicate Distinct(log: seq<Event>, owner: Index -> nat, session: Index -> nat) {
    && (forall p :: Arrived(p) in log && IsInit(p) ==> owner(InboundIndex(p)) == p.client)
    && (forall p :: Arrived(p) in log && IsData(p) ==> session(InboundIndex(p)) == p.client)
    && (forall s, c :: Bridged(s, c) in log ==> session(s) == owner(c))
  }

  lemma {:induction false} BridgeIsEvent(log: seq<Event>, s: Index)
    requires LatestBridge(log, s).Some?
    ensures Bridged(s, LatestBridge(log, s).value) in log
    decreases |log|
  {
    var n := |log| - 1;
    if !(log[n].Bridged? && log[n].s == s) {
      BridgeIsEvent(log[..n], s);
      assert log == log[..n] + [log[n]];
    }
  }

  /**
   Traffic for a client only goes to hosts and learned ports from which that
   same client had sent an authenticated packet, and to exactly such an address
   when the port is kept.
   */
  lemma ClientsAreIsolated(cfg: Config, threads: nat, sched: Schedule, owner: Index -> nat, session: Index -> nat,
                           i: nat)
    requires Distinct(Run(cfg, threads, sched).log, owner, session)
    requires i < |Run(cfg, threads, sched).log| && Run(cfg, threads, sched).log[i].Sent?
    ensures var log := Run(cfg, threads, sched).log;
            && Addressed(log[i].o, log[i].c)
            && (exists p :: Arrived(p) in log[..i] && p.src == log[i].dest && p.client == owner(log[i].c))
            && |log[i].o.wg| >= 16
            && (KeepsPort(cfg, log[i].o, log[i].mode, log[i].dest) ==>
                  exists p :: Arrived(p) in log[..i] && p.src == log[i].wire && p.client == owner(log[i].c))
  {
    hide Run, LocksOk, MapsOk, PcsOk, LatestSource, LatestBridge, LatestMode, FinalDest, WasLatest, Taking, Addressed;
    hide IsInit, IsData, InboundIndex, Distinct;
    RunInv(cfg, threads, sched);
    var log := Run(cfg, threads, sched).log;
    assert EventOk(cfg, log[..i], log[i]);
    PrefixOk(cfg, log, i);
    var k := SourceArrived(cfg, log[..i], log[i].c, log[i].dest);
    assert log[..i][..k] == log[..k] && log[..i][k] == log[k];
    OwnedPacket(cfg, log, k, owner, session, log[i].c);
    WireAddress(cfg, log[i].o, log[i].mode, log[i].dest);
  }

  /** A packet attributed to a client index was sent by the owner of that index. */
  lemma OwnedPacket(cfg: Config, log: seq<Event>, k: nat, owner: Index -> nat, session: Index -> nat, c: Index)
    requires Distinct(log, owner, session) && k < |log|
    requires EventOk(cfg, log[..k], log[k]) && Attributed(log[..k], log[k]) == Some(c)
    ensures log[k].p.client == owner(c)
  {
    hide LatestSource, LatestBridge, LatestMode, FinalDest, WasLatest, IsInit, IsData, InboundIndex;
    assert log[..|log|] == log;
    InPrefix(log, k, |log|, Arrived(log[k].p));
    if log[k].LearnedData? {
      BridgeIsEvent(log[..k], InboundIndex(log[k].p));
      InPrefix(log, k, |log|, Bridged(InboundIndex(log[k].p), c));
    }
  }

  // ---- Progress ------------------------------------------------------------

  /** Only an ingress thread ever holds two locks, the session lock before the client lock. */
  lemma TwoLocks(cfg: Config, threads: nat, sched: Schedule, t: nat)
    requires t < |Run(cfg, threads, sched).pcs|
    ensures var pc := Run(cfg, threads, sched).pcs[t];
            && !(HoldsObfs(pc) && (HoldsSession(pc) || HoldsClient(pc)))
            && (HoldsSession(pc) && HoldsClient(pc) ==> t > 0 && pc.InRefresh?)
            && (HoldsClient(pc) ==> !Waits(pc)) && (HoldsObfs(pc) ==> !Waits(pc))
  {
    hide Run, LocksOk, MapsOk, PcsOk, LogOk;
    RunInv(cfg, threads, sched);
  }

  predicate Busy(s: State, t: nat) { t < |s.pcs| && !s.pcs[t].Idle? }

  /** Some busy thread is not blocked. */
  lemma SomeBusyThreadRuns(cfg: Config, s: State, t: nat) returns (u: nat)
    requires LocksOk(s) && Busy(s, t)
    ensures Busy(s, u) && MayEnter(s, s.pcs[u])
  {
    u := t;
    if !MayEnter(s, s.pcs[u]) && (s.pcs[u].WantBridge? || s.pcs[u].WantSession?) {
      u := s.sessionLock.value;
    }
    if !MayEnter(s, s.pcs[u]) {
      u := if s.pcs[u].WantMode? || s.pcs[u].WantNote? then s.obfsLock.value else s.clientLock.value;
    }
  }

  /** No deadlock: whenever a thread is busy, in any schedule, some busy thread can take a step. */
  lemma NoDeadlock(cfg: Config, threads: nat, sched: Schedule, t: nat)
    requires Busy(Run(cfg, threads, sched), t)
    ensures var s := Run(cfg, threads, sched); exists u :: Busy(s, u) && Act(cfg, s, u, Nothing).Some?
  {
    hide Run, MapsOk, PcsOk, LogOk, LocksOk, MayEnter;
    RunInv(cfg, threads, sched);
    var u := SomeBusyThreadRuns(cfg, Run(cfg, threads, sched), t);
  }

  /** Steps a thread still has to take before it is idle. */
  function Remaining(pc: Pc): nat {
    match pc
    case Idle => 0
    case InMode(_, _, _) => 1 case WantMode(_, _, _) => 2
    case InLookup(_, _) => 3 case WantLookup(_, _) => 4
    case InBridge(_) => 5 case WantBridge(_) => 6
    case InRefresh(_, _) => 1 case WantRefresh(_, _) => 2
    case InSession(_) => 3 case WantSession(_) => 4
    case InInit(_) => 1 case WantInit(_) => 2
    case InNote(_) => 5 case WantNote(_) => 6
  }

  function Total(pcs: seq<Pc>): nat {
    if pcs == [] then 0 else Total(pcs[..|pcs| - 1]) + Remaining(pcs[|pcs| - 1])
  }

  lemma {:induction false} TotalAfter(pcs: seq<Pc>, t: nat, pc: Pc)
    requires t < |pcs|
    ensures Total(pcs[t := pc]) + Remaining(pcs[t]) == Total(pcs) + Remaining(pc)
    decreases |pcs|
  {
    hide Remaining;
    var n := |pcs| - 1;
    if t == n {
      assert pcs[t := pc][..n] == pcs[..n];
    } else {
      TotalAfter(pcs[..n], t, pc);
      assert pcs[t := pc][..n] == pcs[..n][t := pc];
    }
  }

  lemma {:induction false} TotalZero(pcs: seq<Pc>)
    ensures Total(pcs) == 0 <==> forall t :: 0 <= t < |pcs| ==> pcs[t].Idle?
    decreases |pcs|
  {
    if pcs != [] {
      var init := pcs[..|pcs| - 1];
      TotalZero(init);
      assert forall t :: 0 <= t < |init| ==> init[t] == pcs[t];
      if forall t :: 0 <= t < |init| ==> init[t].Idle? {
      } else {
        var t :| 0 <= t < |init| && !init[t].Idle?;
        assert !pcs[t].Idle?;
      }
    }
  }

  /** Every step of a busy thread brings it closer to idle. */
  lemma StepsCount(cfg: Config, s: State, u: nat, ef: Effect)
    requires Busy(s, u) && Act(cfg, s, u, Nothing) == Some(ef)
    ensures Remaining(ef.next) < Remaining(s.pcs[u])
  {
    hide IndexAt, InboundIndex, IsInit, IsData, FinalDest;
  }

  lemma RunAppend(cfg: Config, threads: nat, sched: Schedule, turn: (nat, Input))
    ensures Run(cfg, threads, sched + [turn]) == Turn(cfg, Run(cfg, threads, sched), turn)
  {
    hide Turn;
    var long := sched + [turn];
    assert long[..|long| - 1] == sched;
  }

  lemma BusyTurn(cfg: Config, s: State, u: nat)
    requires Busy(s, u) && MayEnter(s, s.pcs[u])
    ensures Total(Turn(cfg, s, (u, Nothing)).pcs) < Total(s.pcs)
  {
    hide Apply, Total, Remaining, Begin, Emit;
    var ef := Act(cfg, s, u, Nothing).value;
    StepsCount(cfg, s, u, ef);
    Moved(s, u, ef);
    TotalAfter(s.pcs, u, ef.next);
  }

  /**
   From every reachable state, finishing the packets in hand is always possible: some continuation
   leaves every thread idle.
   */
  lemma {:induction false} Drains(cfg: Config, threads: nat, sched: Schedule) returns (more: Schedule)
    ensures forall t :: 0 <= t < |Run(cfg, threads, sched + more).pcs| ==> Run(cfg, threads, sched + more).pcs[t].Idle?
    decreases Total(Run(cfg, threads, sched).pcs)
  {
    hide Run, MapsOk, PcsOk, LogOk, LocksOk, MayEnter, Total, Turn;
    var s := Run(cfg, threads, sched);
    RunInv(cfg, threads, sched);
    TotalZero(s.pcs);
    if Total(s.pcs) == 0 {
      more := [];
      assert sched + more == sched;
    } else {
      var t :| 0 <= t < |s.pcs| && !s.pcs[t].Idle?;
      var u := SomeBusyThreadRuns(cfg, s, t);
      var turn := (u, Nothing);
      BusyTurn(cfg, s, u);
      RunAppend(cfg, threads, sched, turn);
      var rest := Drains(cfg, threads, sched + [turn]);
      more := [turn] + rest;
      assert sched + more == sched + [turn] + rest;
    }
  }
}
