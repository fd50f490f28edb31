/** What every schedule keeps: lock discipline, maps that follow the history, and a history in order. */
module RoutingLaws {
  import opened Bytes
  import opened Codec
  import opened SharedAddr
  import opened Routing

  // ---- Invariant -----------------------------------------------------------

  /** A lock is held by exactly the thread whose position says so. */
  ghost predicate LockOk(pcs: seq<Pc>, lock: Option<nat>, holds: Pc -> bool) {
    && (forall t :: 0 <= t < |pcs| ==> (holds(pcs[t]) <==> lock == Some(t)))
    && (lock.Some? ==> lock.value < |pcs|)
  }

  ghost predicate LocksOk(s: State) {
    && LockOk(s.pcs, s.sessionLock, HoldsSession)
    && LockOk(s.pcs, s.clientLock, HoldsClient)
    && LockOk(s.pcs, s.obfsLock, HoldsObfs)
  }

  /** Thread 0 is the egress thread, the others are ingress threads. */
  ghost predicate RolesOk(s: State) {
    |s.pcs| > 0 && EgressPc(s.pcs[0]) && forall t :: 0 < t < |s.pcs| ==> IngressPc(s.pcs[t])
  }

  function Bridge(s: State, i: Index): Option<Index> { if i in s.sessionMap then Some(s.sessionMap[i]) else None }
  function Source(s: State, c: Index): Option<SocketAddr> { if c in s.clientMap then Some(s.clientMap[c]) else None }
  function ModeOf(s: State, a: SocketAddr): Option<Mode> { if a in s.clientObfs then Some(s.clientObfs[a]) else None }

  /** Each map holds exactly the latest value its history gives. */
  ghost predicate MapsOk(s: State) {
    && (forall i :: Bridge(s, i) == LatestBridge(s.log, i))
    && (forall c :: Source(s, c) == LatestSource(s.log, c))
    && (forall a :: ModeOf(s, a) == LatestMode(s.log, a))
  }

  /** At some time since the last local packet was taken up, dest was the latest source of c. */
  ghost predicate WasLatest(log: seq<Event>, c: Index, dest: SocketAddr) {
    exists k :: TakenAt(log) <= k <= |log| && LatestSource(log[..k], c) == Some(dest)
  }

  /** o is the local packet taken up last. */
  ghost predicate Taking(log: seq<Event>, o: Outbound) {
    TakenAt(log) > 0 && log[TakenAt(log) - 1] == Taken(o)
  }

  /** What an ingress thread knows about its packet. */
  ghost predicate InboundOk(cfg: Config, s: State, p: Inbound, noted: bool) {
    Arrived(p) in s.log && (noted && cfg.isServer ==> Noted(p) in s.log)
  }

  ghost predicate PcOk(cfg: Config, s: State, pc: Pc) {
    match pc
    case WantNote(p) => InboundOk(cfg, s, p, false) && cfg.isServer
    case InNote(p) => InboundOk(cfg, s, p, false) && cfg.isServer
    case WantInit(p) => InboundOk(cfg, s, p, true) && IsInit(p)
    case InInit(p) => InboundOk(cfg, s, p, true) && IsInit(p)
    case WantSession(p) => InboundOk(cfg, s, p, true) && IsData(p)
    case InSession(p) => InboundOk(cfg, s, p, true) && IsData(p)
    case WantRefresh(p, c) => InboundOk(cfg, s, p, true) && IsData(p) && Bridge(s, InboundIndex(p)) == Some(c)
    case InRefresh(p, c) => InboundOk(cfg, s, p, true) && IsData(p) && Bridge(s, InboundIndex(p)) == Some(c)
    case WantBridge(o) => Taking(s.log, o) && TypeOf(o.wg) == 2
    case InBridge(o) => Taking(s.log, o) && TypeOf(o.wg) == 2
    case WantLookup(o, c) => Taking(s.log, o) && Addressed(o, c)
    case InLookup(o, c) => Taking(s.log, o) && Addressed(o, c)
    case WantMode(o, c, dest) => Taking(s.log, o) && Addressed(o, c) && WasLatest(s.log, c, dest) && cfg.isServer
    case InMode(o, c, dest) => Taking(s.log, o) && Addressed(o, c) && WasLatest(s.log, c, dest) && cfg.isServer
    case Idle => true
  }

  ghost predicate PcsOk(cfg: Config, s: State) { forall t :: 0 <= t < |s.pcs| ==> PcOk(cfg, s, s.pcs[t]) }

  /** What may stand behind a given history. */
  ghost predicate EventOk(cfg: Config, log: seq<Event>, e: Event) {
    match e
    case Noted(p) => Arrived(p) in log
    case LearnedInit(p) => Arrived(p) in log && IsInit(p) && (cfg.isServer ==> Noted(p) in log)
    case LearnedData(p, c) => Arrived(p) in log && IsData(p) && (cfg.isServer ==> Noted(p) in log)
        && LatestBridge(log, InboundIndex(p)) == Some(c)
    case Sent(o, c, dest, wire, mode) =>
      && |o.wg| >= 16 && wire == FinalDest(cfg, o, mode, dest)
      && Taking(log, o) && Addressed(o, c) && WasLatest(log, c, dest)
      && (if cfg.isServer then LatestMode(log, dest) == Some(mode) else mode == cfg.obfs)
    case _ => true
  }

  ghost predicate LogOk(cfg: Config, log: seq<Event>) {
    forall i :: 0 <= i < |log| ==> EventOk(cfg, log[..i], log[i])
  }

  ghost predicate Inv(cfg: Config, s: State) {
    LocksOk(s) && RolesOk(s) && MapsOk(s) && PcsOk(cfg, s) && LogOk(cfg, s.log)
  }

  // ---- Facts about histories -----------------------------------------------

  lemma Extend(log: seq<Event>, e: Event)
    ensures (log + [e])[..|log|] == log && (log + [e])[|log|] == e
  {
  }

  lemma BridgeAfter(log: seq<Event>, e: Event, i: Index)
    ensures LatestBridge(log + [e], i) == if e.Bridged? && e.s == i then Some(e.c) else LatestBridge(log, i)
  {
    Extend(log, e);
  }

  lemma SourceAfter(log: seq<Event>, e: Event, c: Index)
    ensures LatestSource(log + [e], c) == if Attributed(log, e) == Some(c) then Some(e.p.src) else LatestSource(log, c)
  {
    Extend(log, e);
  }

  lemma ModeAfter(log: seq<Event>, e: Event, a: SocketAddr)
    ensures LatestMode(log + [e], a) == if e.Noted? && e.p.src == a then Some(e.p.mode) else LatestMode(log, a)
  {
    Extend(log, e);
  }

  lemma LogAfter(cfg: Config, log: seq<Event>, e: Event)
    requires LogOk(cfg, log) && EventOk(cfg, log, e)
    ensures LogOk(cfg, log + [e])
  {
    hide EventOk;
    var l := log + [e];
    forall i | 0 <= i < |l| ensures EventOk(cfg, l[..i], l[i]) {
      if i < |log| {
        assert l[..i] == log[..i];
      } else {
        Extend(log, e);
      }
    }
  }

  lemma TakenAfter(log: seq<Event>, e: Event)
    requires !e.Taken?
    ensures TakenAt(log + [e]) == TakenAt(log)
    ensures forall o :: Taking(log, o) ==> Taking(log + [e], o)
  {
    Extend(log, e);
  }

  lemma WasLatestAfter(log: seq<Event>, e: Event, c: Index, dest: SocketAddr)
    requires WasLatest(log, c, dest) && !e.Taken?
    ensures WasLatest(log + [e], c, dest)
  {
    hide LatestSource, TakenAt;
    TakenAfter(log, e);
    var k :| TakenAt(log) <= k <= |log| && LatestSource(log[..k], c) == Some(dest);
    assert (log + [e])[..k] == log[..k];
  }

  /** The latest source belongs to a learned packet of the history. */
  lemma {:induction false} SourceLearned(log: seq<Event>, c: Index) returns (k: nat)
    requires LatestSource(log, c).Some?
    ensures k < |log| && Attributed(log[..k], log[k]) == Some(c) && log[k].p.src == LatestSource(log, c).value
    decreases |log|
  {
    hide Attributed;
    var n := |log| - 1;
    if Attributed(log[..n], log[n]) == Some(c) {
      k := n;
    } else {
      k := SourceLearned(log[..n], c);
      assert log[..n][..k] == log[..k];
    }
  }

  /** A noted address has a latest mode. */
  lemma {:induction false} NotedHasMode(log: seq<Event>, p: Inbound)
    requires Noted(p) in log
    ensures LatestMode(log, p.src).Some?
    decreases |log|
  {
    var n := |log| - 1;
    if log[n] != Noted(p) {
      assert Noted(p) in log[..n] by {
        var i :| 0 <= i < |log| && log[i] == Noted(p);
        assert log[..n][i] == Noted(p);
      }
      NotedHasMode(log[..n], p);
    }
  }

  /** Once an address was the latest source of a client on a server, its mode is known. */
  lemma RoutedHasMode(cfg: Config, log: seq<Event>, c: Index, dest: SocketAddr)
    requires LogOk(cfg, log) && cfg.isServer && WasLatest(log, c, dest)
    ensures LatestMode(log, dest).Some?
  {
    hide LatestSource, LatestMode, LatestBridge;
    var k :| TakenAt(log) <= k <= |log| && LatestSource(log[..k], c) == Some(dest);
    var j := SourceLearned(log[..k], c);
    assert log[..k][..j] == log[..j] && log[..k][j] == log[j];
    assert EventOk(cfg, log[..j], log[j]);
    var p := log[j].p;
    assert Noted(p) in log by {
      var i :| 0 <= i < j && log[..j][i] == Noted(p);
      assert log[i] == Noted(p);
    }
    NotedHasMode(log, p);
  }

  // ---- Preservation --------------------------------------------------------

  /** What a step may do, as far as the invariant is concerned. */
  ghost predicate EffectOk(cfg: Config, s: State, t: nat, ef: Effect)
    requires t < |s.pcs|
  {
    var pc := s.pcs[t];
    && (HoldsSession(ef.next) && !HoldsSession(pc) ==> s.sessionLock.None?)
    && (HoldsClient(ef.next) && !HoldsClient(pc) ==> s.clientLock.None?)
    && (HoldsObfs(ef.next) && !HoldsObfs(pc) ==> s.obfsLock.None?)
    && (if t == 0 then EgressPc(ef.next) else IngressPc(ef.next))
    && (ef.event.Some? ==> EventOk(cfg, s.log, ef.event.value))
    && (ef.event.Some? && ef.event.value.Bridged? ==> HoldsSession(pc) && !HoldsSession(ef.next))
    && (ef.event.Some? && ef.event.value.Taken? ==> t == 0)
    && PcOk(cfg, Apply(s, t, ef), ef.next)
  }

  lemma LockKept(pcs: seq<Pc>, lock: Option<nat>, holds: Pc -> bool, t: nat, next: Pc)
    requires LockOk(pcs, lock, holds) && t < |pcs|
    requires holds(next) && !holds(pcs[t]) ==> lock.None?
    ensures LockOk(pcs[t := next], NewLock(lock, holds(pcs[t]), holds(next), t), holds)
  {
  }

  /** Positions and locks after a step do not depend on the event. */
  lemma Moved(s: State, t: nat, ef: Effect)
    requires t < |s.pcs|
    ensures var s', m := Apply(s, t, ef), Move(s, t, ef.next);
            s'.pcs == m.pcs && s'.sessionLock == m.sessionLock && s'.clientLock == m.clientLock
                && s'.obfsLock == m.obfsLock
  {
    hide HoldsSession, HoldsClient, HoldsObfs, InboundIndex;
  }

  lemma LocksKept(s: State, t: nat, ef: Effect)
    requires LocksOk(s) && t < |s.pcs|
    requires HoldsSession(ef.next) && !HoldsSession(s.pcs[t]) ==> s.sessionLock.None?
    requires HoldsClient(ef.next) && !HoldsClient(s.pcs[t]) ==> s.clientLock.None?
    requires HoldsObfs(ef.next) && !HoldsObfs(s.pcs[t]) ==> s.obfsLock.None?
    ensures LocksOk(Apply(s, t, ef))
  {
    hide Apply, LockOk, HoldsSession, HoldsClient, HoldsObfs, NewLock;
    Moved(s, t, ef);
    LockKept(s.pcs, s.sessionLock, HoldsSession, t, ef.next);
    LockKept(s.pcs, s.clientLock, HoldsClient, t, ef.next);
    LockKept(s.pcs, s.obfsLock, HoldsObfs, t, ef.next);
  }

  lemma RolesKept(s: State, t: nat, ef: Effect)
    requires RolesOk(s) && t < |s.pcs|
    requires if t == 0 then EgressPc(ef.next) else IngressPc(ef.next)
    ensures RolesOk(Apply(s, t, ef))
  {
    hide EgressPc, IngressPc, HoldsSession, HoldsClient, HoldsObfs, InboundIndex;
  }

  /** Maps and history after an event. */
  lemma Written(s: State, t: nat, ef: Effect)
    requires t < |s.pcs| && ef.event.Some?
    ensures var s', e := Apply(s, t, ef), ef.event.value;
            && s'.log == s.log + [e]
            && s'.sessionMap == (if e.Bridged? then s.sessionMap[e.s := e.c] else s.sessionMap)
            && s'.clientObfs == (if e.Noted? then s.clientObfs[e.p.src := e.p.mode] else s.clientObfs)
            && s'.clientMap == (if e.LearnedInit? then s.clientMap[InboundIndex(e.p) := e.p.src]
                                else if e.LearnedData? then s.clientMap[e.c := e.p.src] else s.clientMap)
  {
    hide HoldsSession, HoldsClient, HoldsObfs, InboundIndex;
  }

  lemma BridgedNow(s: State, i: Index)
    requires MapsOk(s)
    ensures LatestBridge(s.log, i) == Bridge(s, i)
  {
  }

  lemma SourceNow(s: State, c: Index)
    requires MapsOk(s)
    ensures LatestSource(s.log, c) == Source(s, c)
  {
  }

  lemma NotedNow(s: State, a: SocketAddr)
    requires MapsOk(s)
    ensures LatestMode(s.log, a) == ModeOf(s, a)
  {
  }

  lemma BridgeWritten(s: State, s': State, e: Event, i: Index)
    requires s'.sessionMap == (if e.Bridged? then s.sessionMap[e.s := e.c] else s.sessionMap)
    ensures Bridge(s', i) == if e.Bridged? && e.s == i then Some(e.c) else Bridge(s, i)
  {
  }

  lemma SourceWritten(cfg: Config, s: State, s': State, e: Event, c: Index)
    requires EventOk(cfg, s.log, e)
    requires s'.clientMap == (if e.LearnedInit? then s.clientMap[InboundIndex(e.p) := e.p.src]
                              else if e.LearnedData? then s.clientMap[e.c := e.p.src] else s.clientMap)
    ensures Source(s', c) == if Attributed(s.log, e) == Some(c) then Some(e.p.src) else Source(s, c)
  {
    hide InboundIndex, LatestSource, LatestMode, WasLatest, FinalDest, IsInit, IsData;
  }

  /** Each map write is the one its event stands for. */
  lemma MapsKept(cfg: Config, s: State, t: nat, ef: Effect)
    requires MapsOk(s) && t < |s.pcs|
    requires ef.event.Some? ==> EventOk(cfg, s.log, ef.event.value)
    ensures MapsOk(Apply(s, t, ef))
  {
    hide Apply, LatestBridge, LatestSource, LatestMode, InboundIndex, FinalDest, IsInit, IsData, WasLatest;
    var s' := Apply(s, t, ef);
    if ef.event.Some? {
      var e := ef.event.value;
      Written(s, t, ef);
      forall i ensures Bridge(s', i) == LatestBridge(s'.log, i) {
        BridgedNow(s, i);
        BridgeAfter(s.log, e, i);
        BridgeWritten(s, s', e, i);
      }
      forall c ensures Source(s', c) == LatestSource(s'.log, c) {
        SourceNow(s, c);
        SourceAfter(s.log, e, c);
        SourceWritten(cfg, s, s', e, c);
      }
      forall a ensures ModeOf(s', a) == LatestMode(s'.log, a) {
        NotedNow(s, a);
        ModeAfter(s.log, e, a);
      }
    } else {
      QuietKeeps(s, t, ef);
    }
  }

  lemma QuietKeeps(s: State, t: nat, ef: Effect)
    requires t < |s.pcs| && ef.event.None?
    ensures var s' := Apply(s, t, ef);
            s'.log == s.log && s'.sessionMap == s.sessionMap && s'.clientMap == s.clientMap
                && s'.clientObfs == s.clientObfs
  {
    hide HoldsSession, HoldsClient, HoldsObfs;
  }

  /** What a thread knows survives a step that keeps the session map it relies on. */
  lemma PcStable(cfg: Config, s: State, t: nat, ef: Effect, pc: Pc)
    requires t < |s.pcs| && PcOk(cfg, s, pc)
    requires (pc.WantRefresh? || pc.InRefresh?) && ef.event.Some? ==> !ef.event.value.Bridged?
    requires !IngressPc(pc) && ef.event.Some? ==> !ef.event.value.Taken?
    ensures PcOk(cfg, Apply(s, t, ef), pc)
  {
    hide Apply, PcOk, IngressPc;
    var s' := Apply(s, t, ef);
    if ef.event.None? {
      QuietKeeps(s, t, ef);
      PcSame(cfg, s, s', pc);
    } else {
      Written(s, t, ef);
      PcExtended(cfg, s, s', ef.event.value, pc);
    }
  }

  lemma PcSame(cfg: Config, s: State, s': State, pc: Pc)
    requires s'.log == s.log && s'.sessionMap == s.sessionMap
    ensures PcOk(cfg, s', pc) == PcOk(cfg, s, pc)
  {
    hide WasLatest, Taking, Addressed, IsInit, IsData, InboundIndex;
  }

  lemma PcExtended(cfg: Config, s: State, s': State, e: Event, pc: Pc)
    requires PcOk(cfg, s, pc) && s'.log == s.log + [e]
    requires s'.sessionMap == if e.Bridged? then s.sessionMap[e.s := e.c] else s.sessionMap
    requires (pc.WantRefresh? || pc.InRefresh?) ==> !e.Bridged?
    requires !IngressPc(pc) ==> !e.Taken?
    ensures PcOk(cfg, s', pc)
  {
    hide WasLatest, Taking, Addressed, IsInit, IsData, InboundIndex;
    if !IngressPc(pc) {
      TakenAfter(s.log, e);
      if pc.WantMode? || pc.InMode? {
        WasLatestAfter(s.log, e, pc.c, pc.dest);
      }
    }
  }

  /** The session map changes only in the hands of the thread that holds its lock. */
  lemma PcsKept(cfg: Config, s: State, t: nat, ef: Effect)
    requires LocksOk(s) && RolesOk(s) && PcsOk(cfg, s) && t < |s.pcs| && EffectOk(cfg, s, t, ef)
    ensures PcsOk(cfg, Apply(s, t, ef))
  {
    hide PcOk, EventOk, EgressPc, IngressPc, InboundIndex;
    var s' := Apply(s, t, ef);
    forall u | 0 <= u < |s'.pcs| ensures PcOk(cfg, s', s'.pcs[u]) {
      if u != t {
        assert s'.pcs[u] == s.pcs[u];
        PcStable(cfg, s, t, ef, s.pcs[u]);
      }
    }
  }

  lemma EffectKeeps(cfg: Config, s: State, t: nat, ef: Effect)
    requires Inv(cfg, s) && t < |s.pcs| && EffectOk(cfg, s, t, ef)
    ensures Inv(cfg, Apply(s, t, ef))
  {
    hide LocksOk, MapsOk, LogOk, RolesOk, PcsOk, EventOk, PcOk, EgressPc, IngressPc, InboundIndex;
    LocksKept(s, t, ef);
    RolesKept(s, t, ef);
    MapsKept(cfg, s, t, ef);
    PcsKept(cfg, s, t, ef);
    if ef.event.Some? {
      LogAfter(cfg, s.log, ef.event.value);
    }
  }

  // ---- The effects of the program -------------------------------------------

  lemma LookedUp(s: State, c: Index)
    requires MapsOk(s) && c in s.clientMap
    ensures WasLatest(s.log, c, s.clientMap[c])
  {
    var k := |s.log|;
    assert s.log[..k] == s.log;
    calc {
      LatestSource(s.log[..k], c);
      LatestSource(s.log, c);
      Source(s, c);
      Some(s.clientMap[c]);
    }
  }

  /** On a server the mode lookup of a routed address never misses. */
  lemma ModeNow(cfg: Config, s: State, c: Index, dest: SocketAddr)
    requires LogOk(cfg, s.log) && MapsOk(s) && cfg.isServer && WasLatest(s.log, c, dest)
    ensures dest in s.clientObfs && LatestMode(s.log, dest) == Some(s.clientObfs[dest])
  {
    hide LatestSource, LatestMode, LogOk, WasLatest;
    RoutedHasMode(cfg, s.log, c, dest);
    assert ModeOf(s, dest) == LatestMode(s.log, dest);
  }

  /** Taking a free lock. */
  lemma EnterEffect(cfg: Config, s: State, t: nat, input: Input, ef: Effect)
    requires t < |s.pcs| && PcOk(cfg, s, s.pcs[t]) && Act(cfg, s, t, input) == Some(ef)
    requires if t == 0 then EgressPc(s.pcs[t]) else IngressPc(s.pcs[t])
    requires Waits(s.pcs[t])
    ensures EffectOk(cfg, s, t, ef)
  {
    hide WasLatest, Taking, Addressed, InboundIndex, IsInit, IsData, Apply, EventOk, InboundOk;
    QuietKeeps(s, t, ef);
    Known(cfg, s, Apply(s, t, ef));
  }

  predicate Waits(pc: Pc) {
    pc.WantBridge? || pc.WantLookup? || pc.WantMode? || pc.WantNote? || pc.WantInit? || pc.WantSession?
        || pc.WantRefresh?
  }

  /** A quiet step leaves what is known about packets alone. */
  lemma Known(cfg: Config, s: State, s': State)
    requires s'.log == s.log
    ensures forall p, noted :: InboundOk(cfg, s', p, noted) == InboundOk(cfg, s, p, noted)
  {
  }

  /** An idle thread taking up a packet. */
  lemma BeginEffect(cfg: Config, s: State, t: nat, input: Input, ef: Effect)
    requires t < |s.pcs| && s.pcs[t].Idle? && Act(cfg, s, t, input) == Some(ef)
    ensures EffectOk(cfg, s, t, ef)
  {
    hide WasLatest, InboundIndex, IsInit, IsData, Apply, IndexAt, TypeOf, Authenticated;
    if ef.event.Some? {
      Written(s, t, ef);
    }
  }

  /** Leaving the bridge with the index of the client that is answered. */
  lemma BridgeEffect(cfg: Config, s: State, input: Input, ef: Effect)
    requires 0 < |s.pcs| && s.pcs[0].InBridge? && PcOk(cfg, s, s.pcs[0]) && Act(cfg, s, 0, input) == Some(ef)
    ensures EffectOk(cfg, s, 0, ef)
  {
    hide WasLatest, Taking, FinalDest, IndexAt, InboundIndex, Apply;
    if ef.event.Some? {
      Written(s, 0, ef);
      TakenAfter(s.log, ef.event.value);
    }
  }

  /** Leaving a lookup of the egress thread. */
  lemma EgressEffect(cfg: Config, s: State, input: Input, ef: Effect)
    requires Inv(cfg, s) && 0 < |s.pcs| && Act(cfg, s, 0, input) == Some(ef)
    requires s.pcs[0].InLookup? || s.pcs[0].InMode?
    ensures EffectOk(cfg, s, 0, ef)
  {
    hide LocksOk, RolesOk, MapsOk, LogOk, LatestSource, LatestBridge, LatestMode, WasLatest, Taking, Addressed;
    hide FinalDest, IndexAt, InboundIndex, Apply;
    assert PcOk(cfg, s, s.pcs[0]);
    match s.pcs[0] {
      case InLookup(o, c) =>
        if c in s.clientMap { LookedUp(s, c); }
        if ef.event.None? { QuietKeeps(s, 0, ef); }
      case InMode(o, c, dest) => ModeNow(cfg, s, c, dest);
    }
  }

  /** Leaving a critical section of an ingress thread. */
  lemma IngressEffect(cfg: Config, s: State, t: nat, input: Input, ef: Effect)
    requires MapsOk(s) && 0 < t < |s.pcs| && PcOk(cfg, s, s.pcs[t]) && Act(cfg, s, t, input) == Some(ef)
    requires s.pcs[t].InNote? || s.pcs[t].InInit? || s.pcs[t].InSession? || s.pcs[t].InRefresh?
    ensures EffectOk(cfg, s, t, ef)
  {
    hide MapsOk, LatestBridge, InboundIndex, IsInit, IsData, Apply;
    if ef.event.None? {
      QuietKeeps(s, t, ef);
    } else {
      Written(s, t, ef);
    }
    if s.pcs[t].InRefresh? {
      BridgedNow(s, InboundIndex(s.pcs[t].p));
    }
  }

  lemma ActEffect(cfg: Config, s: State, t: nat, input: Input, ef: Effect)
    requires Inv(cfg, s) && t < |s.pcs| && Act(cfg, s, t, input) == Some(ef)
    ensures EffectOk(cfg, s, t, ef)
  {
    hide Act, LocksOk, MapsOk, LogOk, EffectOk, PcOk;
    assert PcOk(cfg, s, s.pcs[t]);
    if s.pcs[t].Idle? {
      BeginEffect(cfg, s, t, input, ef);
    } else if Waits(s.pcs[t]) {
      EnterEffect(cfg, s, t, input, ef);
    } else if s.pcs[t].InBridge? {
      BridgeEffect(cfg, s, input, ef);
    } else if t == 0 {
      EgressEffect(cfg, s, input, ef);
    } else {
      IngressEffect(cfg, s, t, input, ef);
    }
  }

  lemma StartInv(cfg: Config, threads: nat)
    ensures Inv(cfg, Start(threads))
  {
    hide FinalDest;
    var s := Start(threads);
    assert forall t :: 0 <= t < |s.pcs| ==> s.pcs[t] == Idle;
  }

  lemma TurnKeeps(cfg: Config, s: State, turn: (nat, Input))
    requires Inv(cfg, s)
    ensures Inv(cfg, Turn(cfg, s, turn))
  {
    hide Act, LocksOk, MapsOk, LogOk, PcsOk, EffectOk, EgressPc, IngressPc, Apply;
    if turn.0 < |s.pcs| {
      var r := Act(cfg, s, turn.0, turn.1);
      if r.Some? {
        ActEffect(cfg, s, turn.0, turn.1, r.value);
        EffectKeeps(cfg, s, turn.0, r.value);
      }
    }
  }

  /** Every schedule keeps the invariant. */
  lemma {:induction false} RunInv(cfg: Config, threads: nat, sched: Schedule)
    ensures Inv(cfg, Run(cfg, threads, sched))
  {
    hide Inv, Turn;
    if sched == [] {
      StartInv(cfg, threads);
    } else {
      RunInv(cfg, threads, sched[..|sched| - 1]);
      TurnKeeps(cfg, Run(cfg, threads, sched[..|sched| - 1]), sched[|sched| - 1]);
    }
  }
}
