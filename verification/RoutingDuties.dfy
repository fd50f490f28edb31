/** What arrivals and local packets oblige the threads to do, in every schedule. */
module RoutingDuties {
  import opened Bytes
  import opened Codec
  import opened SharedAddr
  import opened Routing
  import opened RoutingLaws
  import opened RoutingTheorems

  // ---- Runs ------------------------------------------------------------------------

  lemma {:induction false} ThreadCount(cfg: Config, threads: nat, sched: Schedule)
    ensures |Run(cfg, threads, sched).pcs| == threads + 1
  {
    hide Act;
    if sched != [] {
      var n := |sched| - 1;
      ThreadCount(cfg, threads, sched[..n]);
      SameThreads(cfg, Run(cfg, threads, sched[..n]), sched[n]);
    }
  }

  lemma SameThreads(cfg: Config, s: State, turn: (nat, Input))
    ensures |Turn(cfg, s, turn).pcs| == |s.pcs|
  {
    hide Act, HoldsSession, HoldsClient, HoldsObfs, InboundIndex;
  }

  /** A turn of another thread leaves the position alone, and every turn only extends the history. */
  lemma TurnKeepsOthers(cfg: Config, s: State, turn: (nat, Input), t: nat)
    requires t < |s.pcs|
    ensures var s' := Turn(cfg, s, turn);
            && |s'.pcs| == |s.pcs| && (turn.0 != t ==> s'.pcs[t] == s.pcs[t])
            && s.log <= s'.log
  {
    hide Act, Apply;
    if turn.0 < |s.pcs| {
      var r := Act(cfg, s, turn.0, turn.1);
      if r.Some? {
        Moved(s, turn.0, r.value);
        if r.value.event.Some? {
          Written(s, turn.0, r.value);
        } else {
          QuietKeeps(s, turn.0, r.value);
        }
      }
    }
  }

  // ---- Ingress -----------------------------------------------------------------------

  /** At some time from `start` on, index i had no bridge. */
  ghost predicate Unbridged(log: seq<Event>, start: nat, i: Index) {
    exists k :: start <= k <= |log| && LatestBridge(log[..k], i) == None
  }

  /**
   A packet is learned: its mode noted on a server, an initiation attributed to
   its sender, transport data to the client its index is bridged to.
   */
  ghost predicate LearnedSince(cfg: Config, log: seq<Event>, start: nat, p: Inbound)
    requires start <= |log|
  {
    && NotedSince(cfg, log, start, p)
    && (IsInit(p) ==> LearnedInit(p) in log[start..])
    && (IsData(p) ==> (exists c :: LearnedData(p, c) in log[start..]) || Unbridged(log, start, InboundIndex(p)))
  }

  ghost predicate NotedSince(cfg: Config, log: seq<Event>, start: nat, p: Inbound)
    requires start <= |log|
  {
    cfg.isServer ==> Noted(p) in log[start..]
  }

  /** The position handles p. */
  ghost predicate Handles(cfg: Config, log: seq<Event>, start: nat, pc: Pc, p: Inbound)
    requires start <= |log|
  {
    pc == WantNote(p) || pc == InNote(p) || (NotedSince(cfg, log, start, p) && Attributes(pc, p))
  }

  predicate Attributes(pc: Pc, p: Inbound) {
    || (IsInit(p) && (pc == WantInit(p) || pc == InInit(p)))
    || (IsData(p) && (pc == WantSession(p) || pc == InSession(p)))
    || (IsData(p) && (pc.WantRefresh? || pc.InRefresh?) && pc.p == p)
  }

  lemma KeptIn(log: seq<Event>, log': seq<Event>, start: nat, e: Event)
    requires start <= |log| && log <= log' && e in log[start..]
    ensures e in log'[start..]
  {
    var i :| 0 <= i < |log| - start && log[start..][i] == e;
    assert log'[start..][i] == e;
  }

  lemma NotedKept(cfg: Config, log: seq<Event>, log': seq<Event>, start: nat, p: Inbound)
    requires start <= |log| && log <= log' && NotedSince(cfg, log, start, p)
    ensures NotedSince(cfg, log', start, p)
  {
    if cfg.isServer {
      KeptIn(log, log', start, Noted(p));
    }
  }

  lemma LearnedKept(cfg: Config, log: seq<Event>, log': seq<Event>, start: nat, p: Inbound)
    requires start <= |log| && log <= log' && LearnedSince(cfg, log, start, p)
    ensures LearnedSince(cfg, log', start, p)
  {
    hide IsInit, IsData, InboundIndex, LatestBridge;
    NotedKept(cfg, log, log', start, p);
    if IsInit(p) {
      KeptIn(log, log', start, LearnedInit(p));
    }
    if IsData(p) {
      if c :| LearnedData(p, c) in log[start..] {
        KeptIn(log, log', start, LearnedData(p, c));
      } else {
        var k :| start <= k <= |log| && LatestBridge(log[..k], InboundIndex(p)) == None;
        assert log'[..k] == log[..k];
      }
    }
  }

  lemma AppendedIn(log: seq<Event>, start: nat, e: Event)
    requires start <= |log|
    ensures e in (log + [e])[start..]
  {
    assert (log + [e])[start..][|log| - start] == e;
  }

  lemma BothTypes(p: Inbound)
    ensures !(IsInit(p) && IsData(p))
  {
  }

  /** The thread's own turn moves its packet on, or finishes with it. */
  lemma OwnTurn(cfg: Config, s: State, t: nat, input: Input, ef: Effect, start: nat, p: Inbound)
    requires MapsOk(s) && t < |s.pcs| && start <= |s.log| && Handles(cfg, s.log, start, s.pcs[t], p)
    requires Act(cfg, s, t, input) == Some(ef)
    ensures var s' := Apply(s, t, ef);
            start <= |s'.log| && (Handles(cfg, s'.log, start, ef.next, p) || LearnedSince(cfg, s'.log, start, p))
  {
    hide MapsOk, IsInit, IsData, InboundIndex, LatestBridge, Apply;
    BothTypes(p);
    var s' := Apply(s, t, ef);
    if ef.event.Some? {
      Written(s, t, ef);
      AppendedIn(s.log, start, ef.event.value);
      if NotedSince(cfg, s.log, start, p) {
        NotedKept(cfg, s.log, s'.log, start, p);
      }
    } else {
      QuietKeeps(s, t, ef);
      if s.pcs[t].InSession? && InboundIndex(p) !in s.sessionMap {
        BridgedNow(s, InboundIndex(p));
        assert s'.log[..|s'.log|] == s.log;
      }
    }
  }

  lemma HandledKept(cfg: Config, log: seq<Event>, log': seq<Event>, start: nat, pc: Pc, p: Inbound)
    requires start <= |log| && log <= log' && Handles(cfg, log, start, pc, p)
    ensures Handles(cfg, log', start, pc, p)
  {
    hide Attributes;
    if NotedSince(cfg, log, start, p) {
      NotedKept(cfg, log, log', start, p);
    }
  }

  /** One turn of any thread. */
  lemma DutyKept(cfg: Config, s: State, turn: (nat, Input), t: nat, start: nat, p: Inbound)
    requires Inv(cfg, s) && t < |s.pcs| && start <= |s.log|
    requires Handles(cfg, s.log, start, s.pcs[t], p) || LearnedSince(cfg, s.log, start, p)
    ensures var s' := Turn(cfg, s, turn);
            t < |s'.pcs| && start <= |s'.log|
                && (Handles(cfg, s'.log, start, s'.pcs[t], p) || LearnedSince(cfg, s'.log, start, p))
  {
    hide Act, Apply, MapsOk, LocksOk, LogOk, PcsOk, RolesOk, Handles, LearnedSince;
    TurnKeepsOthers(cfg, s, turn, t);
    var s' := Turn(cfg, s, turn);
    if LearnedSince(cfg, s.log, start, p) {
      LearnedKept(cfg, s.log, s'.log, start, p);
    } else if turn.0 != t {
      HandledKept(cfg, s.log, s'.log, start, s.pcs[t], p);
    } else {
      var r := Act(cfg, s, t, turn.1);
      if r.Some? {
        OwnTurn(cfg, s, t, turn.1, r.value, start, p);
        Moved(s, t, r.value);
      }
    }
  }

  lemma {:induction false} DutyOverRun(cfg: Config, threads: nat, a: Schedule, b: Schedule, t: nat, start: nat,
                                       p: Inbound)
    requires var s := Run(cfg, threads, a);
             t < |s.pcs| && start <= |s.log|
                 && (Handles(cfg, s.log, start, s.pcs[t], p) || LearnedSince(cfg, s.log, start, p))
    ensures var s := Run(cfg, threads, a + b);
            t < |s.pcs| && start <= |s.log|
                && (Handles(cfg, s.log, start, s.pcs[t], p) || LearnedSince(cfg, s.log, start, p))
  {
    hide Run, Turn, Handles, LearnedSince, Inv;
    if b == [] {
      assert a + b == a;
    } else {
      var n := |b| - 1;
      DutyOverRun(cfg, threads, a, b[..n], t, start, p);
      RunInv(cfg, threads, a + b[..n]);
      DutyKept(cfg, Run(cfg, threads, a + b[..n]), b[n], t, start, p);
      RunAppend(cfg, threads, a + b[..n], b[n]);
      assert a + b == (a + b[..n]) + [b[n]];
    }
  }

  lemma TakenIn(cfg: Config, s: State, t: nat, src: SocketAddr, bytes: Bytes, client: nat, p: Inbound)
    requires 0 < t < |s.pcs| && s.pcs[t].Idle?
    requires Authenticated(cfg, bytes) == Some((p.wg, p.mode)) && p.src == src && p.client == client
    ensures var s' := Turn(cfg, s, (t, Datagram(src, bytes, client)));
            && |s'.pcs| == |s.pcs| && s'.log == s.log + [Arrived(p)]
            && (Handles(cfg, s'.log, |s.log|, s'.pcs[t], p) || LearnedSince(cfg, s'.log, |s.log|, p))
  {
    hide Authenticated, IsInit, IsData, InboundIndex, HoldsSession, HoldsClient, HoldsObfs;
    assert Inbound(src, p.mode, p.wg, client) == p;
  }

  /**
   Whatever the other threads do, an authenticated packet that an idle ingress
   thread takes in is recorded, and once that thread is idle again it has been
   learned: its mode on a server, the source of an initiation with a non-zero
   index, and that of transport data unless its index had no bridge at some time
   since.
   */
  lemma ArrivalsAreLearned(cfg: Config, threads: nat, a: Schedule, t: nat, bytes: Bytes, p: Inbound, b: Schedule)
    requires 0 < t < |Run(cfg, threads, a).pcs| && Run(cfg, threads, a).pcs[t].Idle?
    requires Authenticated(cfg, bytes) == Some((p.wg, p.mode))
    ensures var start := |Run(cfg, threads, a).log|;
            var s := Run(cfg, threads, a + [(t, Datagram(p.src, bytes, p.client))] + b);
            && t < |s.pcs| && start < |s.log| && s.log[start] == Arrived(p)
            && (s.pcs[t].Idle? ==> LearnedSince(cfg, s.log, start, p))
  {
    hide Run, Turn, LearnedSince, Authenticated, IsInit, IsData;
    var turn := (t, Datagram(p.src, bytes, p.client));
    var s := Run(cfg, threads, a);
    TakenIn(cfg, s, t, p.src, bytes, p.client, p);
    RunAppend(cfg, threads, a, turn);
    DutyOverRun(cfg, threads, a + [turn], b, t, |s.log|, p);
    LogGrows(cfg, threads, a + [turn], b);
  }

  lemma {:induction false} LogGrows(cfg: Config, threads: nat, a: Schedule, b: Schedule)
    ensures Run(cfg, threads, a).log <= Run(cfg, threads, a + b).log
  {
    hide Run, Turn;
    if b == [] {
      assert a + b == a;
    } else {
      var n := |b| - 1;
      LogGrows(cfg, threads, a, b[..n]);
      RunAppend(cfg, threads, a + b[..n], b[n]);
      assert a + b == (a + b[..n]) + [b[n]];
      var s := Run(cfg, threads, a + b[..n]);
      ThreadCount(cfg, threads, a + b[..n]);
      TurnKeepsOthers(cfg, s, b[n], 0);
    }
  }

  // ---- Egress ------------------------------------------------------------------------

  /** At some time from `start` on, c had no latest source. */
  ghost predicate Unknown(log: seq<Event>, start: nat, c: Index) {
    exists k :: start <= k <= |log| && LatestSource(log[..k], c) == None
  }

  /** A local packet for c is sent. */
  ghost predicate SentSince(log: seq<Event>, start: nat, o: Outbound, c: Index)
    requires start <= |log|
  {
    (exists i :: start <= i < |log| && log[i].Sent? && log[i].o == o && log[i].c == c) || Unknown(log, start, c)
  }

  predicate Carries(pc: Pc, o: Outbound, c: Index) {
    || (TypeOf(o.wg) == 2 && |o.wg| >= 12 && c == IndexAt(o.wg, 8) && (pc == WantBridge(o) || pc == InBridge(o)))
    || pc == WantLookup(o, c) || pc == InLookup(o, c)
    || ((pc.WantMode? || pc.InMode?) && pc.o == o && pc.c == c)
  }

  lemma SentKept(log: seq<Event>, log': seq<Event>, start: nat, o: Outbound, c: Index)
    requires start <= |log| && log <= log' && SentSince(log, start, o, c)
    ensures SentSince(log', start, o, c)
  {
    hide LatestSource;
    if Unknown(log, start, c) {
      var k :| start <= k <= |log| && LatestSource(log[..k], c) == None;
      assert log'[..k] == log[..k];
    } else {
      var i :| start <= i < |log| && log[i].Sent? && log[i].o == o && log[i].c == c;
      assert log'[i] == log[i];
    }
  }

  lemma OwnEgressTurn(cfg: Config, s: State, input: Input, ef: Effect, start: nat, o: Outbound, c: Index)
    requires MapsOk(s) && 0 < |s.pcs| && start <= |s.log| && |o.wg| >= 16 && Carries(s.pcs[0], o, c)
    requires Act(cfg, s, 0, input) == Some(ef)
    ensures var s' := Apply(s, 0, ef); Carries(ef.next, o, c) || SentSince(s'.log, start, o, c)
  {
    hide MapsOk, TypeOf, IndexAt, LatestSource, FinalDest, Apply;
    var s' := Apply(s, 0, ef);
    if ef.event.Some? {
      Written(s, 0, ef);
      assert s'.log[|s.log|] == ef.event.value;
    } else {
      QuietKeeps(s, 0, ef);
      if s.pcs[0].InLookup? && c !in s.clientMap {
        SourceNow(s, c);
        assert s'.log[..|s'.log|] == s.log;
      }
    }
  }

  lemma EgressDutyKept(cfg: Config, s: State, turn: (nat, Input), start: nat, o: Outbound, c: Index)
    requires Inv(cfg, s) && start <= |s.log| && |o.wg| >= 16 && 0 < |s.pcs|
    requires Carries(s.pcs[0], o, c) || SentSince(s.log, start, o, c)
    ensures var s' := Turn(cfg, s, turn);
            0 < |s'.pcs| && start <= |s'.log| && (Carries(s'.pcs[0], o, c) || SentSince(s'.log, start, o, c))
  {
    hide Act, Apply, MapsOk, LocksOk, LogOk, PcsOk, RolesOk, Carries, SentSince;
    TurnKeepsOthers(cfg, s, turn, 0);
    var s' := Turn(cfg, s, turn);
    if SentSince(s.log, start, o, c) {
      SentKept(s.log, s'.log, start, o, c);
    } else if turn.0 == 0 {
      var r := Act(cfg, s, 0, turn.1);
      if r.Some? {
        OwnEgressTurn(cfg, s, turn.1, r.value, start, o, c);
        Moved(s, 0, r.value);
      }
    }
  }

  lemma {:induction false} EgressDutyOverRun(cfg: Config, threads: nat, a: Schedule, b: Schedule, start: nat,
                                             o: Outbound, c: Index)
    requires var s := Run(cfg, threads, a);
             && 0 < |s.pcs| && start <= |s.log| && |o.wg| >= 16
             && (Carries(s.pcs[0], o, c) || SentSince(s.log, start, o, c))
    ensures var s := Run(cfg, threads, a + b);
            0 < |s.pcs| && start <= |s.log| && (Carries(s.pcs[0], o, c) || SentSince(s.log, start, o, c))
  {
    hide Run, Turn, Carries, SentSince, Inv;
    if b == [] {
      assert a + b == a;
    } else {
      var n := |b| - 1;
      EgressDutyOverRun(cfg, threads, a, b[..n], start, o, c);
      RunInv(cfg, threads, a + b[..n]);
      EgressDutyKept(cfg, Run(cfg, threads, a + b[..n]), b[n], start, o, c);
      RunAppend(cfg, threads, a + b[..n], b[n]);
      assert a + b == (a + b[..n]) + [b[n]];
    }
  }

  lemma TakenUpNow(cfg: Config, s: State, o: Outbound, c: Index)
    requires 0 < |s.pcs| && s.pcs[0].Idle? && |o.wg| >= 16 && Addressed(o, c)
    ensures var s' := Turn(cfg, s, (0, Local(o)));
            |s'.pcs| == |s.pcs| && s'.log == s.log + [Taken(o)] && Carries(s'.pcs[0], o, c)
  {
    hide TypeOf, IndexAt, HoldsSession, HoldsClient, HoldsObfs;
  }

  /**
   Whatever the other threads do, a local packet addressed to a client index is
   taken up by the idle egress thread, and once that thread is idle again it
   has been sent, unless the index had no source at some time since.
   */
  lemma LocalPacketsAreSent(cfg: Config, threads: nat, a: Schedule, o: Outbound, c: Index, b: Schedule)
    requires |o.wg| >= 16 && Addressed(o, c)
    requires 0 < |Run(cfg, threads, a).pcs| && Run(cfg, threads, a).pcs[0].Idle?
    ensures var start := |Run(cfg, threads, a).log|;
            var s := Run(cfg, threads, a + [(0, Local(o))] + b);
            && 0 < |s.pcs| && start < |s.log| && s.log[start] == Taken(o)
            && (s.pcs[0].Idle? ==> SentSince(s.log, start, o, c))
  {
    hide Run, Turn, SentSince, Addressed, TypeOf, IndexAt;
    var s := Run(cfg, threads, a);
    TakenUpNow(cfg, s, o, c);
    RunAppend(cfg, threads, a, (0, Local(o)));
    EgressDutyOverRun(cfg, threads, a + [(0, Local(o))], b, |s.log|, o, c);
    LogGrows(cfg, threads, a + [(0, Local(o))], b);
  }

  // ---- Bridges -----------------------------------------------------------------------

  /** A handshake response: type 2 with both indices. */
  predicate IsResponse(o: Outbound) { TypeOf(o.wg) == 2 && |o.wg| >= 12 }

  /** The pair a response bridges: its sender index stands for its receiver index. */
  function BridgeOf(o: Outbound): Event
    requires IsResponse(o)
  {
    Bridged(IndexAt(o.wg, 4), IndexAt(o.wg, 8))
  }

  ghost predicate BridgeDuty(s: State, start: nat, o: Outbound)
    requires IsResponse(o)
  {
    && 0 < |s.pcs| && start <= |s.log|
    && (s.pcs[0] == WantBridge(o) || s.pcs[0] == InBridge(o) || BridgeOf(o) in s.log[start..])
  }

  lemma OwnBridgeTurn(cfg: Config, s: State, input: Input, ef: Effect, start: nat, o: Outbound)
    requires IsResponse(o) && 0 < |s.pcs| && start <= |s.log| && (s.pcs[0] == WantBridge(o) || s.pcs[0] == InBridge(o))
    requires Act(cfg, s, 0, input) == Some(ef)
    ensures BridgeDuty(Apply(s, 0, ef), start, o)
  {
    hide IndexAt, TypeOf, Apply;
    Moved(s, 0, ef);
    if ef.event.Some? {
      Written(s, 0, ef);
      AppendedIn(s.log, start, ef.event.value);
    } else {
      QuietKeeps(s, 0, ef);
    }
  }

  lemma BridgeDutyKept(cfg: Config, s: State, turn: (nat, Input), start: nat, o: Outbound)
    requires IsResponse(o) && BridgeDuty(s, start, o)
    ensures BridgeDuty(Turn(cfg, s, turn), start, o)
  {
    hide Act, Apply, IndexAt, TypeOf, IsResponse, BridgeOf;
    TurnKeepsOthers(cfg, s, turn, 0);
    if BridgeOf(o) in s.log[start..] {
      KeptIn(s.log, Turn(cfg, s, turn).log, start, BridgeOf(o));
    } else if turn.0 == 0 {
      var r := Act(cfg, s, 0, turn.1);
      if r.Some? { OwnBridgeTurn(cfg, s, turn.1, r.value, start, o); }
    }
  }

  lemma {:induction false} BridgeDutyOverRun(cfg: Config, threads: nat, a: Schedule, b: Schedule, start: nat,
                                             o: Outbound)
    requires IsResponse(o) && BridgeDuty(Run(cfg, threads, a), start, o)
    ensures BridgeDuty(Run(cfg, threads, a + b), start, o)
  {
    hide Run, Turn, BridgeDuty, IsResponse;
    if b == [] {
      assert a + b == a;
    } else {
      var n := |b| - 1;
      BridgeDutyOverRun(cfg, threads, a, b[..n], start, o);
      BridgeDutyKept(cfg, Run(cfg, threads, a + b[..n]), b[n], start, o);
      RunAppend(cfg, threads, a + b[..n], b[n]);
      assert a + b == (a + b[..n]) + [b[n]];
    }
  }

  lemma ResponseTaken(cfg: Config, s: State, o: Outbound)
    requires 0 < |s.pcs| && s.pcs[0].Idle? && IsResponse(o)
    ensures BridgeDuty(Turn(cfg, s, (0, Local(o))), |s.log|, o)
  {
    hide TypeOf, IndexAt, HoldsSession, HoldsClient, HoldsObfs;
  }

  /**
   Whatever the other threads do, a response that the idle egress thread takes up is bridged before
   it idles again.
   */
  lemma ResponsesAreBridged(cfg: Config, threads: nat, a: Schedule, o: Outbound, b: Schedule)
    requires IsResponse(o) && 0 < |Run(cfg, threads, a).pcs| && Run(cfg, threads, a).pcs[0].Idle?
    ensures var start := |Run(cfg, threads, a).log|;
            var s := Run(cfg, threads, a + [(0, Local(o))] + b);
            0 < |s.pcs| && start <= |s.log| && (s.pcs[0].Idle? ==> BridgeOf(o) in s.log[start..])
  {
    hide Run, Turn, IsResponse, BridgeOf;
    ResponseTaken(cfg, Run(cfg, threads, a), o);
    RunAppend(cfg, threads, a, (0, Local(o)));
    BridgeDutyOverRun(cfg, threads, a + [(0, Local(o))], b, |Run(cfg, threads, a).log|, o);
  }

  /** Some response taken up bridges s to c. */
  ghost predicate Answered(log: seq<Event>, s: Index, c: Index) {
    exists o :: Taken(o) in log && IsResponse(o) && BridgeOf(o) == Bridged(s, c)
  }

  lemma BridgeEffect(cfg: Config, st: State, t: nat, input: Input, ef: Effect, s: Index, c: Index)
    requires Inv(cfg, st) && t < |st.pcs| && Act(cfg, st, t, input) == Some(ef) && ef.event == Some(Bridged(s, c))
    ensures Answered(st.log, s, c)
  {
    hide Authenticated, IsInit, IsData, InboundIndex, IndexAt, TypeOf, FinalDest, LocksOk, MapsOk, LogOk;
    assert st.pcs[t].InBridge?;
    assert PcOk(cfg, st, st.pcs[t]);
    var o := st.pcs[t].o;
    assert Taken(o) in st.log;
  }

  lemma AnsweredKept(log: seq<Event>, log': seq<Event>, s: Index, c: Index)
    requires log <= log' && Answered(log, s, c)
    ensures Answered(log', s, c)
  {
    hide IsResponse, BridgeOf;
    var o :| Taken(o) in log && IsResponse(o) && BridgeOf(o) == Bridged(s, c);
    var i :| 0 <= i < |log| && log[i] == Taken(o);
    assert log'[i] == Taken(o);
  }

  lemma BridgeStep(cfg: Config, st: State, turn: (nat, Input), s: Index, c: Index)
    requires Inv(cfg, st) && Bridged(s, c) in Turn(cfg, st, turn).log
    requires Bridged(s, c) in st.log ==> Answered(st.log, s, c)
    ensures Answered(Turn(cfg, st, turn).log, s, c)
  {
    hide Act, Apply, Answered, LocksOk, MapsOk, LogOk, PcsOk;
    TurnKeepsOthers(cfg, st, turn, 0);
    if Bridged(s, c) !in st.log {
      var r := Act(cfg, st, turn.0, turn.1);
      if r.value.event.Some? {
        Written(st, turn.0, r.value);
        BridgeEffect(cfg, st, turn.0, turn.1, r.value, s, c);
      } else {
        QuietKeeps(st, turn.0, r.value);
      }
    }
    AnsweredKept(st.log, Turn(cfg, st, turn).log, s, c);
  }

  /** Nothing else is bridged: in every schedule a bridge comes from a response with exactly those indices. */
  lemma {:induction false} BridgesAreResponses(cfg: Config, threads: nat, sched: Schedule, s: Index, c: Index)
    requires Bridged(s, c) in Run(cfg, threads, sched).log
    ensures Answered(Run(cfg, threads, sched).log, s, c)
  {
    hide Turn, Answered, Inv;
    if sched != [] {
      var n := |sched| - 1;
      if Bridged(s, c) in Run(cfg, threads, sched[..n]).log {
        BridgesAreResponses(cfg, threads, sched[..n], s, c);
      }
      RunInv(cfg, threads, sched[..n]);
      BridgeStep(cfg, Run(cfg, threads, sched[..n]), sched[n], s, c);
    }
  }

  // ---- Fields ------------------------------------------------------------------------

  /** The four bytes at place i spell the index. */
  predicate Spelled(wg: Bytes, i: nat, c: Index) { i + 4 <= |wg| && LeBytes(c.word) == wg[i..i + 4] }

  lemma IndexSpelled(wg: Bytes, i: nat, c: Index)
    requires i + 4 <= |wg|
    ensures c == IndexAt(wg, i) <==> Spelled(wg, i, c)
  {
    hide LeBytes, LeWord;
    LeBytesOfWord(wg[i..i + 4]);
    LeWordOfBytes(c.word);
  }

  lemma ZeroSpelled()
    ensures LeBytes(ZERO.word) == [0, 0, 0, 0]
  {
  }

  /** Incoming packets: the type is the low five bits of the first byte, the index stands at 4..8. */
  lemma InboundFields(p: Inbound)
    ensures IsInit(p) <==> |p.wg| >= 8 && p.wg[0] & 0x1F == 1 && p.wg[4..8] != [0, 0, 0, 0]
    ensures IsData(p) <==> |p.wg| >= 8 && p.wg[0] & 0x1F == 4
    ensures |p.wg| >= 8 ==> Spelled(p.wg, 4, InboundIndex(p))
  {
    hide LeBytes, LeWord;
    if |p.wg| >= 8 {
      IndexSpelled(p.wg, 4, InboundIndex(p));
      IndexSpelled(p.wg, 4, ZERO);
      ZeroSpelled();
    }
  }

  /** Outgoing packets: a response names its client at 8..12, a cookie reply or transport data at 4..8. */
  lemma OutboundFields(o: Outbound, c: Index)
    ensures Addressed(o, c) <==>
            || (|o.wg| >= 12 && o.wg[0] & 0x1F == 2 && Spelled(o.wg, 8, c))
            || (|o.wg| >= 8 && (o.wg[0] & 0x1F == 3 || o.wg[0] & 0x1F == 4) && Spelled(o.wg, 4, c))
    ensures IsResponse(o) <==> |o.wg| >= 12 && o.wg[0] & 0x1F == 2
    ensures IsResponse(o) ==> Spelled(o.wg, 4, BridgeOf(o).s) && Spelled(o.wg, 8, BridgeOf(o).c)
  {
    hide LeBytes, LeWord;
    if |o.wg| >= 8 { IndexSpelled(o.wg, 4, c); }
    if |o.wg| >= 12 {
      IndexSpelled(o.wg, 8, c);
      IndexSpelled(o.wg, 4, IndexAt(o.wg, 4));
      IndexSpelled(o.wg, 8, IndexAt(o.wg, 8));
    }
  }

  /**
   In SIP mode media spreads over the configured ports behind the first by its timestamp; signalling
   takes the first.
   */
  lemma StripedPort(cfg: Config, o: Outbound, dest: SocketAddr)
    requires |o.wg| >= 16 && |cfg.ports| > 1
    ensures var port := FinalDest(cfg, o, Sip, dest).port;
            if o.wg[0] == 4 && |o.wg| > 32 then
              var ts := Nonce(Wire(cfg.ks, cfg.fill, o.wg, cfg.isServer, o.sport, cfg.wgPort, Sip)) as nat;
              port == cfg.ports[1 + ts % (|cfg.ports| - 1)]
            else port == cfg.ports[0]
  {
    hide Nonce, Wire;
  }

  // ---- Nothing else arrives --------------------------------------------------------

  /** A recorded arrival is a datagram of the schedule that the ingress path authenticates. */
  ghost predicate Received(cfg: Config, sched: Schedule, p: Inbound) {
    exists i :: 0 <= i < |sched| && sched[i].1.Datagram? && sched[i].1.src == p.src && sched[i].1.client == p.client
                && Authenticated(cfg, sched[i].1.bytes) == Some((p.wg, p.mode))
  }

  lemma NewArrival(cfg: Config, s: State, turn: (nat, Input), p: Inbound)
    requires Arrived(p) in Turn(cfg, s, turn).log && Arrived(p) !in s.log
    ensures turn.1.Datagram? && turn.1.src == p.src && turn.1.client == p.client
    ensures Authenticated(cfg, turn.1.bytes) == Some((p.wg, p.mode))
  {
    hide Authenticated, Act, Apply;
    var r := Act(cfg, s, turn.0, turn.1);
    if r.value.event.Some? {
      Written(s, turn.0, r.value);
      ArrivalEffect(cfg, s, turn.0, turn.1, r.value, p);
    } else {
      QuietKeeps(s, turn.0, r.value);
    }
  }

  /** Only an idle ingress thread records an arrival. */
  lemma ArrivalEffect(cfg: Config, s: State, t: nat, input: Input, ef: Effect, p: Inbound)
    requires t < |s.pcs| && Act(cfg, s, t, input) == Some(ef) && ef.event == Some(Arrived(p))
    ensures input.Datagram? && input.src == p.src && input.client == p.client
    ensures Authenticated(cfg, input.bytes) == Some((p.wg, p.mode))
  {
    hide Authenticated, IsInit, IsData, InboundIndex, IndexAt, TypeOf, FinalDest;
  }

  /** In every schedule the packets on record are exactly datagrams that were received and authenticated. */
  lemma {:induction false} ArrivalsAreAuthentic(cfg: Config, threads: nat, sched: Schedule, p: Inbound)
    requires Arrived(p) in Run(cfg, threads, sched).log
    ensures Received(cfg, sched, p)
  {
    hide Turn, Authenticated;
    if sched != [] {
      var n := |sched| - 1;
      if Arrived(p) in Run(cfg, threads, sched[..n]).log {
        ArrivalsAreAuthentic(cfg, threads, sched[..n], p);
        var i :| 0 <= i < n && sched[..n][i].1.Datagram? && sched[..n][i].1.src == p.src
                 && sched[..n][i].1.client == p.client
                 && Authenticated(cfg, sched[..n][i].1.bytes) == Some((p.wg, p.mode));
        assert sched[i] == sched[..n][i];
      } else {
        NewArrival(cfg, Run(cfg, threads, sched[..n]), sched[n], p);
      }
    }
  }
}
