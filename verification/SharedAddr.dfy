/** The lock-free shared address cell and its fingerprint-guarded update, in sequential use. */
module SharedAddr {
  import opened Bytes

  /** An endpoint; address octets are given by their big-endian words. */
  datatype SocketAddr =
    | V4(ip: bv32, port: bv16)
    | V6(w0: bv32, w1: bv32, w2: bv32, w3: bv32, port: bv16, flow: bv32, scope: bv32)

  datatype Words4 = Words4(a: bv32, b: bv32, c: bv32, d: bv32)

  /** The fields of the cell. */
  datatype Cell = Cell(family: bv32, ip: Words4, port: bv32)

  const UNSET := Cell(0, Words4(0, 0, 0, 0), 0)

  /** `as u32` and `as u16`. */
  function Widen(p: bv16): bv32 { p as bv32 }
  function Narrow(p: bv32): bv16 { (p & 0xFFFF) as bv16 }

  function Stored(addr: SocketAddr): Cell {
    match addr
    case V4(ip, port) => Cell(4, Words4(ip, 0, 0, 0), Widen(port))
    case V6(w0, w1, w2, w3, port, _, _) => Cell(6, Words4(w0, w1, w2, w3), Widen(port))
  }

  function Loaded(c: Cell): Option<SocketAddr> {
    if c.family == 0 then None
    else
      var port := Narrow(c.port);
      if c.family == 4 then Some(V4(c.ip.a, port))
      else Some(V6(c.ip.a, c.ip.b, c.ip.c, c.ip.d, port, 0, 0))
  }

  /** What a load can give back: the cell has no room for flow label and scope. */
  function Kept(addr: SocketAddr): SocketAddr {
    match addr
    case V4(_, _) => addr
    case V6(_, _, _, _, _, _, _) => addr.(flow := 0, scope := 0)
  }

  lemma PortFits(p: bv16)
    ensures Narrow(Widen(p)) == p
  {
  }

  lemma LoadInvertsStore(addr: SocketAddr)
    ensures Loaded(Stored(addr)) == Some(Kept(addr))
    ensures Loaded(Stored(addr)) == Some(addr) <==> addr.V4? || (addr.flow == 0 && addr.scope == 0)
  {
    hide Narrow, Widen;
    PortFits(addr.port);
  }

  // ---- Fingerprints --------------------------------------------------------

  function Mix(w: Words4, port: bv32): bv64 {
    ((((w.a ^ w.c) as bv64) << 32) | ((w.b ^ w.d) as bv64)) ^ (port as bv64)
  }

  function V4Print(ip: bv32, port: bv16): bv64 { ((ip as bv64) << 32) ^ (port as bv64) }

  /** `load_raw`. */
  function Raw(c: Cell): bv64 { Mix(c.ip, c.port) }

  /** `addr_fingerprint`. */
  function Fingerprint(addr: SocketAddr): bv64 {
    match addr
    case V4(ip, port) => V4Print(ip, port)
    case V6(w0, w1, w2, w3, port, _, _) => Mix(Words4(w0, w1, w2, w3), Widen(port))
  }

  lemma V4Mix(ip: bv32, port: bv16)
    ensures Mix(Words4(ip, 0, 0, 0), Widen(port)) == V4Print(ip, port)
  {
  }

  /** A stored address has the fingerprint of the address. */
  lemma RawAfterStore(addr: SocketAddr)
    ensures Raw(Stored(addr)) == Fingerprint(addr)
  {
    hide Mix, Widen, V4Print;
    if addr.V4? {
      V4Mix(addr.ip, addr.port);
    }
  }

  /** The packet-path update: store only when the fingerprint differs. */
  function Tracked(c: Cell, src: SocketAddr): Cell {
    if Raw(c) != Fingerprint(src) then Stored(src) else c
  }

  /** Version 4 fingerprints are injective. */
  lemma V4Injective(ip: bv32, port: bv16, ip': bv32, port': bv16)
    requires V4Print(ip, port) == V4Print(ip', port')
    ensures ip == ip' && port == port'
  {
  }

  lemma V4Zero(ip: bv32, port: bv16)
    ensures V4Print(ip, port) == 0 <==> ip == 0 && port == 0
  {
  }

  /** What a fingerprint keeps of an address: version 6 words are folded in pairs, with the port in the second. */
  function Folded(addr: SocketAddr): (bv32, bv32) {
    match addr
    case V4(ip, port) => (ip, Widen(port))
    case V6(w0, w1, w2, w3, port, _, _) => (XorWord(w0, w2), XorWord(XorWord(w1, w3), Widen(port)))
  }

  function Join(high: bv32, low: bv32): bv64 { ((high as bv64) << 32) | (low as bv64) }

  function High(j: bv64): bv32 { (j >> 32) as bv32 }
  function Low(j: bv64): bv32 { (j & 0xFFFFFFFF) as bv32 }

  lemma JoinParts(a: bv32, b: bv32)
    ensures High(Join(a, b)) == a && Low(Join(a, b)) == b
  {
  }

  function WithLow(j: bv64, port: bv32): bv64 { j ^ (port as bv64) }

  lemma LowXor(high: bv32, low: bv32, port: bv32)
    ensures WithLow(Join(high, low), port) == Join(high, XorWord(low, port))
  {
  }

  lemma MixIsJoin(w: Words4, port: bv32)
    ensures Mix(w, port) == Join(XorWord(w.a, w.c), XorWord(XorWord(w.b, w.d), port))
  {
    var high, low := XorWord(w.a, w.c), XorWord(w.b, w.d);
    assert Mix(w, port) == WithLow(Join(high, low), port);
    hide *;
    LowXor(high, low, port);
  }

  lemma V4IsJoin(ip: bv32, port: bv16)
    ensures V4Print(ip, port) == Join(ip, Widen(port))
  {
  }

  lemma FingerprintIsFolded(addr: SocketAddr)
    ensures Fingerprint(addr) == Join(Folded(addr).0, Folded(addr).1)
  {
    hide Mix, Widen, V4Print, Join, XorWord;
    match addr
    case V4(ip, port) => V4IsJoin(ip, port);
    case V6(w0, w1, w2, w3, port, _, _) => MixIsJoin(Words4(w0, w1, w2, w3), Widen(port));
  }

  /** Two addresses share a fingerprint exactly when they fold to the same words. */
  lemma CollisionIff(a: SocketAddr, b: SocketAddr)
    ensures Fingerprint(a) == Fingerprint(b) <==> Folded(a) == Folded(b)
  {
    hide Fingerprint, Folded, Join, High, Low;
    FingerprintIsFolded(a);
    FingerprintIsFolded(b);
    JoinParts(Folded(a).0, Folded(a).1);
    JoinParts(Folded(b).0, Folded(b).1);
  }

  /** Swapping the halves of a version 6 address keeps the fingerprint. */
  lemma V6Collision()
    ensures exists a, b :: Kept(a) != Kept(b) && Fingerprint(a) == Fingerprint(b)
  {
    var a, b := V6(1, 0, 2, 0, 7, 0, 0), V6(2, 0, 1, 0, 7, 0, 0);
    assert Fingerprint(a) == Fingerprint(b);
    assert Kept(a).w0 != Kept(b).w0;
  }

  // ---- Runs ----------------------------------------------------------------

  /** The cell after a run of sources. */
  function AfterRun(run: seq<SocketAddr>): Cell {
    if run == [] then UNSET else Tracked(AfterRun(run[..|run| - 1]), run[|run| - 1])
  }

  /** After every step the cell loads as the latest source. */
  ghost predicate AlwaysLatest(run: seq<SocketAddr>) {
    forall i :: 0 <= i < |run| ==> Loaded(AfterRun(run[..i + 1])) == Some(Kept(run[i]))
  }

  /** No source shares its fingerprint with a different predecessor, nor with the unset cell. */
  predicate CollisionFree(run: seq<SocketAddr>) {
    && (run != [] ==> Fingerprint(run[0]) != 0)
    && forall i :: 0 < i < |run| && Fingerprint(run[i]) == Fingerprint(run[i - 1]) ==> Kept(run[i]) == Kept(run[i - 1])
  }

  lemma KeptStored(a: SocketAddr, b: SocketAddr)
    ensures Stored(a) == Stored(b) <==> Kept(a) == Kept(b)
  {
    LoadInvertsStore(a);
    LoadInvertsStore(b);
  }

  lemma UnsetRaw()
    ensures Raw(UNSET) == 0 && Loaded(UNSET) == None
  {
  }

  /** Along a collision-free run the cell always holds its latest source. */
  lemma {:induction false} HoldsLatest(run: seq<SocketAddr>)
    requires run != [] && CollisionFree(run)
    ensures AfterRun(run) == Stored(run[|run| - 1])
    decreases |run|
  {
    hide Raw, Fingerprint, Stored;
    var n := |run| - 1;
    var init := run[..n];
    if n == 0 {
      UnsetRaw();
      assert init == [];
    } else {
      assert CollisionFree(init);
      HoldsLatest(init);
      assert init[n - 1] == run[n - 1];
      RawAfterStore(run[n - 1]);
      KeptStored(run[n], run[n - 1]);
    }
  }

  /** The guarded update refines always-store exactly on the collision-free runs. */
  lemma TrackingIsLatest(run: seq<SocketAddr>)
    ensures AlwaysLatest(run) <==> CollisionFree(run)
  {
    hide Raw, Fingerprint, Stored, Loaded, AfterRun, Kept;
    if CollisionFree(run) {
      forall i | 0 <= i < |run| ensures Loaded(AfterRun(run[..i + 1])) == Some(Kept(run[i])) {
        var p := run[..i + 1];
        assert CollisionFree(p);
        HoldsLatest(p);
        LoadInvertsStore(run[i]);
      }
    } else {
      FirstCollision(run);
    }
  }

  /** A shortest run with a collision shows a stale address. */
  lemma {:induction false} FirstCollision(run: seq<SocketAddr>)
    requires !CollisionFree(run)
    ensures !AlwaysLatest(run)
    decreases |run|
  {
    hide Raw, Fingerprint, Stored, Loaded, Kept;
    var n := |run| - 1;
    var init := run[..n];
    assert run[..n + 1] == run;
    if !CollisionFree(init) {
      FirstCollision(init);
      var i :| 0 <= i < n && Loaded(AfterRun(init[..i + 1])) != Some(Kept(init[i]));
      assert init[..i + 1] == run[..i + 1];
    } else if n == 0 {
      UnsetRaw();
      assert init == [];
      assert AfterRun(run) == UNSET;
    } else {
      assert Fingerprint(run[n]) == Fingerprint(run[n - 1]) && Kept(run[n]) != Kept(run[n - 1]);
      HoldsLatest(init);
      RawAfterStore(run[n - 1]);
      LoadInvertsStore(run[n - 1]);
      assert AfterRun(run) == Stored(run[n - 1]);
    }
  }

  /** Every run of version 4 sources other than 0.0.0.0:0 is collision-free. */
  lemma V4RunsAreLatest(run: seq<SocketAddr>)
    requires forall i :: 0 <= i < |run| ==> run[i].V4? && run[i] != V4(0, 0)
    ensures AlwaysLatest(run)
  {
    hide AlwaysLatest;
    if run != [] {
      V4Zero(run[0].ip, run[0].port);
    }
    forall i | 0 < i < |run| && Fingerprint(run[i]) == Fingerprint(run[i - 1]) ensures Kept(run[i])
        == Kept(run[i - 1]) {
      V4Injective(run[i].ip, run[i].port, run[i - 1].ip, run[i - 1].port);
    }
    TrackingIsLatest(run);
  }

  // ---- The object ----------------------------------------------------------

  /** The shared cell; its methods touch one field at a time, as the atomics do. */
  class Shared {
    var family: bv32
    var ip: array<bv32>
    var port: bv32

    ghost predicate Valid() reads this { ip.Length == 4 }

    function Value(): Cell
      requires Valid()
      reads this, ip
    {
      Cell(family, Words4(ip[0], ip[1], ip[2], ip[3]), port)
    }

    constructor ()
      ensures Valid() && fresh(ip) && Value() == UNSET
    {
      family, port := 0, 0;
      ip := new bv32[4](_ => 0);
    }

    method Store(addr: SocketAddr)
      requires Valid()
      modifies this`family, this`port, ip
      ensures Valid() && Value() == Stored(addr)
    {
      hide Widen;
      match addr {
        case V4(a, p) =>
          ip[0] := a;
          ip[1] := 0;
          ip[2] := 0;
          ip[3] := 0;
          port := Widen(p);
          family := 4;
        case V6(w0, w1, w2, w3, p, _, _) =>
          ip[0] := w0;
          ip[1] := w1;
          ip[2] := w2;
          ip[3] := w3;
          port := Widen(p);
          family := 6;
      }
    }

    method Load() returns (r: Option<SocketAddr>)
      requires Valid()
      ensures r == Loaded(Value())
    {
      hide Narrow;
      if family == 0 {
        return None;
      }
      var p := Narrow(port);
      if family == 4 {
        r := Some(V4(ip[0], p));
      } else {
        r := Some(V6(ip[0], ip[1], ip[2], ip[3], p, 0, 0));
      }
    }

    /** The compare-and-store of the egress loop. */
    method Track(src: SocketAddr)
      requires Valid()
      modifies this`family, this`port, ip
      ensures Valid() && Value() == Tracked(old(Value()), src)
    {
      hide Mix, Fingerprint;
      var raw := Mix(Words4(ip[0], ip[1], ip[2], ip[3]), port);
      if raw != Fingerprint(src) {
        Store(src);
      }
    }
  }
}
