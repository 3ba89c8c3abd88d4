/** The address translation table of the TUN system stack.

    `addrMap` takes a source to its translated port, `portMap` takes a port to its session.  The
    table is keyed by source alone, so the destination of a session is the one recorded when its
    port was handed out.  The clock is an integer passed to every operation. */
module TcpNat {
  import opened Bytes

  const NAT_PORT_START := 10000
  const NAT_PORT_END := 60000
  const POOL := NAT_PORT_END - NAT_PORT_START + 1

  type Ip4 = d: Data | |d| == 4 witness [0, 0, 0, 0]
  type Ip6 = d: Data | |d| == 16 witness [0, 0, 0, 0, 0, 0, 0, 0, 0, 0, 0, 0, 0, 0, 0, 0]
  type Port = x: int | 0 <= x < 0x1_0000

  datatype SocketAddr = V4(ip4: Ip4, port: Port) | V6(ip6: Ip6, port: Port)

  datatype Entry = Entry(source: SocketAddr, destination: SocketAddr, lastActive: int)

  datatype Nat = Nat(portIndex: nat, addrMap: map<SocketAddr, nat>, portMap: map<nat, Entry>)

  predicate InPool(p: int) { NAT_PORT_START <= p <= NAT_PORT_END }

  /** The two maps are mutual inverses and only pool ports are in use. */
  ghost predicate Inverse(n: Nat) {
    && InPool(n.portIndex)
    && (forall p :: p in n.portMap ==>
          InPool(p) && n.portMap[p].source in n.addrMap && n.addrMap[n.portMap[p].source] == p)
    && (forall a :: a in n.addrMap ==> n.addrMap[a] in n.portMap && n.portMap[n.addrMap[a]].source == a)
  }

  /** The k-th port of the cyclic scan that begins at `start`. */
  function Nth(start: nat, k: nat): int {
    if start + k <= NAT_PORT_END then start + k else start + k - POOL
  }

  ghost predicate Full(n: Nat) { forall p :: InPool(p) ==> p in n.portMap }

  // ----- what each operation does to the table -----

  ghost predicate Refreshed(n: Nat, n': Nat, p: nat, now: int)
    requires p in n.portMap
  {
    n' == n.(portMap := n.portMap[p := n.portMap[p].(lastActive := now)])
  }

  ghost predicate TookFree(n: Nat, n': Nat, src: SocketAddr, dst: SocketAddr, now: int, k: nat) {
    var p := Nth(n.portIndex, k);
    && k < POOL && p >= 0 && p !in n.portMap
    && (forall j: nat :: j < k ==> Nth(n.portIndex, j) in n.portMap)
    && Nth(n.portIndex, k + 1) >= 0
    && n' == Nat(Nth(n.portIndex, k + 1), n.addrMap[src := p], n.portMap[p := Entry(src, dst, now)])
  }

  /** No session has been quiet for longer than the one on port `p`. */
  ghost predicate Oldest(n: Nat, p: nat) {
    p in n.portMap && forall o :: o in n.portMap ==> n.portMap[p].lastActive <= n.portMap[o].lastActive
  }

  ghost predicate Evicted(n: Nat, n': Nat, src: SocketAddr, dst: SocketAddr, now: int, p: nat) {
    && Full(n) && Oldest(n, p)
    && n' == Nat(n.portIndex,
                 (n.addrMap - {n.portMap[p].source})[src := p],
                 n.portMap[p := Entry(src, dst, now)])
  }

  ghost predicate OutStep(n: Nat, src: SocketAddr, dst: SocketAddr, now: int, n': Nat, p: nat) {
    if src in n.addrMap then
      n.addrMap[src] == p && p in n.portMap && Refreshed(n, n', p, now)
    else if Full(n) then
      Evicted(n, n', src, dst, now, p)
    else
      exists k: nat :: TookFree(n, n', src, dst, now, k) && p == Nth(n.portIndex, k)
  }

  ghost predicate BackStep(n: Nat, port: nat, now: int, n': Nat) {
    if port in n.portMap then Refreshed(n, n', port, now) else n' == n
  }

  function Expired(n: Nat, timeout: nat, now: int): set<nat> {
    set p | p in n.portMap && now - n.portMap[p].lastActive > timeout
  }

  function Sources(n: Nat, ports: set<nat>): set<SocketAddr> {
    set p | p in ports && p in n.portMap :: n.portMap[p].source
  }

  ghost predicate GcStep(n: Nat, timeout: nat, now: int, n': Nat) {
    var gone := Expired(n, timeout, now);
    n' == Nat(n.portIndex, n.addrMap - Sources(n, gone), n.portMap - gone)
  }

  class Translator {
    var portIndex: nat
    var addrMap: map<SocketAddr, nat>
    var portMap: map<nat, Entry>

    ghost function View(): Nat
      reads this
    {
      Nat(portIndex, addrMap, portMap)
    }

    constructor ()
      ensures View() == Nat(NAT_PORT_START, map[], map[])
      ensures Inverse(View())
    {
      portIndex, addrMap, portMap := NAT_PORT_START, map[], map[];
    }

    method LookupOrInsert(src: SocketAddr, dst: SocketAddr, now: int) returns (port: nat)
      requires Inverse(View())
      modifies this
      ensures OutStep(old(View()), src, dst, now, View(), port)
      ensures Inverse(View()) && InPool(port)
      ensures src in addrMap && addrMap[src] == port
    {
      if src in addrMap {
        port := addrMap[src];
        portMap := portMap[port := portMap[port].(lastActive := now)];
        return;
      }
      var free, k := ScanForFree();
      if free.Some? {
        port := free.value;
        DoInsert(port, src, dst, now);
        assert TookFree(old(View()), View(), src, dst, now, k);
      } else {
        port := EvictOldest();
        DoInsert(port, src, dst, now);
        assert portMap == old(portMap)[port := Entry(src, dst, now)];
      }
      OutKeepsInverse(old(View()), src, dst, now, View(), port);
    }

    /** The first free port in cyclic order from `portIndex`, which moves past it; nothing only when
        every pool port is taken, and then `portIndex` is back where it was. */
    method ScanForFree() returns (r: Option<nat>, ghost k: nat)
      requires InPool(portIndex)
      modifies this`portIndex
      ensures r.None? <==> Full(old(View()))
      ensures r.None? ==> portIndex == old(portIndex)
      ensures r.Some? ==>
                && k < POOL && r.value == Nth(old(portIndex), k) && r.value !in portMap
                && portIndex == Nth(old(portIndex), k + 1)
                && forall j: nat :: j < k ==> Nth(old(portIndex), j) in portMap
    {
      var start := portIndex;
      k := 0;
      while true
        invariant k < POOL
        invariant start == old(portIndex) && portIndex == Nth(start, k)
        invariant forall j: nat :: j < k ==> Nth(start, j) in portMap
        decreases POOL - k
      {
        var port := portIndex;
        portIndex := if portIndex >= NAT_PORT_END then NAT_PORT_START else portIndex + 1;
        if port !in portMap {
          assert InPool(port);
          return Some(port), k;
        }
        k := k + 1;
        if portIndex == start {
          break;
        }
      }
      ScanCoversPool(View(), start);
      r := None;
    }

    method EvictOldest() returns (p: nat)
      requires Full(View())
      modifies this`addrMap, this`portMap
      ensures Oldest(old(View()), p)
      ensures addrMap == old(addrMap) - {old(portMap)[p].source} && portMap == old(portMap) - {p}
    {
      assert InPool(NAT_PORT_START);
      p := OldestPort();
      addrMap := addrMap - {portMap[p].source};
      portMap := portMap - {p};
    }

    method DoInsert(port: nat, src: SocketAddr, dst: SocketAddr, now: int)
      modifies this`addrMap, this`portMap
      ensures addrMap == old(addrMap)[src := port]
      ensures portMap == old(portMap)[port := Entry(src, dst, now)]
    {
      addrMap := addrMap[src := port];
      portMap := portMap[port := Entry(src, dst, now)];
    }

    /** The session whose last activity is earliest; which one of several is up to the iteration order. */
    method OldestPort() returns (p: nat)
      requires portMap != map[]
      ensures Oldest(View(), p)
    {
      var rest := portMap.Keys;
      p :| p in rest;
      rest := rest - {p};
      while rest != {}
        invariant p in portMap && rest <= portMap.Keys
        invariant forall o :: o in portMap && o !in rest ==> portMap[p].lastActive <= portMap[o].lastActive
        decreases rest
      {
        var o :| o in rest;
        rest := rest - {o};
        if portMap[o].lastActive < portMap[p].lastActive {
          p := o;
        }
      }
    }

    method LookupBack(natPort: nat, now: int) returns (r: Option<(SocketAddr, SocketAddr)>)
      requires Inverse(View())
      modifies this`portMap
      ensures BackStep(old(View()), natPort, now, View())
      ensures Inverse(View())
      ensures r == if natPort in old(portMap)
                   then Some((old(portMap)[natPort].source, old(portMap)[natPort].destination)) else None
    {
      if natPort !in portMap {
        return None;
      }
      var entry := portMap[natPort];
      portMap := portMap[natPort := entry.(lastActive := now)];
      r := Some((entry.source, entry.destination));
    }

    method Gc(timeout: nat, now: int)
      requires Inverse(View())
      modifies this`addrMap, this`portMap
      ensures GcStep(old(View()), timeout, now, View())
      ensures Inverse(View())
    {
      var expired := set p | p in portMap && now - portMap[p].lastActive > timeout;
      ghost var n, all, done := View(), expired, {};
      while expired != {}
        invariant expired + done == all && expired !! done
        invariant portIndex == n.portIndex
        invariant portMap == n.portMap - done
        invariant addrMap == n.addrMap - Sources(n, done)
        decreases expired
      {
        var p :| p in expired;
        expired := expired - {p};
        addrMap := addrMap - {portMap[p].source};
        portMap := portMap - {p};
        assert Sources(n, done + {p}) == Sources(n, done) + {n.portMap[p].source};
        done := done + {p};
      }
      assert done == all == Expired(n, timeout, now);
    }
  }

  lemma ScanCoversPool(n: Nat, start: nat)
    requires InPool(start)
    requires forall j: nat :: j < POOL ==> Nth(start, j) in n.portMap
    ensures Full(n)
  {
    forall p | InPool(p)
      ensures p in n.portMap
    {
      var j: nat := if p >= start then p - start else p - start + POOL;
      assert Nth(start, j) == p;
    }
  }

  lemma InsertKeepsInverse(n: Nat, n': Nat, src: SocketAddr, dst: SocketAddr, now: int, p: nat)
    requires Inverse(n) && src !in n.addrMap && p !in n.portMap && InPool(p) && InPool(n'.portIndex)
    requires n'.addrMap == n.addrMap[src := p] && n'.portMap == n.portMap[p := Entry(src, dst, now)]
    ensures Inverse(n')
  {
  }

  lemma EvictionKeepsInverse(n: Nat, n': Nat, p: nat)
    requires Inverse(n) && p in n.portMap
    requires n' == Nat(n.portIndex, n.addrMap - {n.portMap[p].source}, n.portMap - {p})
    ensures Inverse(n')
  {
  }

  // ----- every run of the table -----

  datatype Event =
    | Out(src: SocketAddr, dst: SocketAddr, now: int)
    | Back(port: nat, now: int)
    | Collect(timeout: nat, now: int)

  ghost predicate Step(n: Nat, e: Event, n': Nat) {
    match e
    case Out(src, dst, now) => exists p: nat :: OutStep(n, src, dst, now, n', p)
    case Back(port, now) => BackStep(n, port, now, n')
    case Collect(timeout, now) => GcStep(n, timeout, now, n')
  }

  /** A run: consecutive states are related by the event between them. */
  ghost predicate IsRun(ns: seq<Nat>, es: seq<Event>) {
    |ns| == |es| + 1 && forall i :: 0 <= i < |es| ==> Step(ns[i], es[i], ns[i + 1])
  }

  ghost predicate Session(n: Nat, src: SocketAddr, p: nat, dst: SocketAddr) {
    && src in n.addrMap && n.addrMap[src] == p
    && p in n.portMap && n.portMap[p].source == src && n.portMap[p].destination == dst
  }

  /** The only two ways a session can end: a collection finds it idle for longer than the timeout, or a
      new source arrives while every pool port is taken and no session is older. */
  ghost predicate MayEnd(n: Nat, e: Event, p: nat)
    requires p in n.portMap
  {
    match e
    case Out(src, _, _) => src !in n.addrMap && Full(n) && Oldest(n, p)
    case Back(_, _) => false
    case Collect(timeout, now) => now - n.portMap[p].lastActive > timeout
  }

  lemma OutKeepsInverse(n: Nat, src: SocketAddr, dst: SocketAddr, now: int, n': Nat, p: nat)
    requires Inverse(n) && OutStep(n, src, dst, now, n', p)
    ensures Inverse(n')
  {
    if src !in n.addrMap && Full(n) {
      var between := Nat(n.portIndex, n.addrMap - {n.portMap[p].source}, n.portMap - {p});
      EvictionKeepsInverse(n, between, p);
      assert n'.portMap == between.portMap[p := Entry(src, dst, now)];
      InsertKeepsInverse(between, n', src, dst, now, p);
    } else if src !in n.addrMap {
      InsertKeepsInverse(n, n', src, dst, now, p);
    }
  }

  /** A new source gets the first free port at or behind the index, or failing that the first free one from 10000 on,
      and the index moves behind it; in a full table it gets the port of a session that is quiet for longest. */
  lemma NewSourceGetsNextFree(n: Nat, src: SocketAddr, dst: SocketAddr, now: int, n': Nat, p: nat)
    requires Inverse(n) && OutStep(n, src, dst, now, n', p) && src !in n.addrMap
    ensures Session(n', src, p, dst) && n'.portMap[p].lastActive == now
    ensures Full(n) ==>
              n'.portIndex == n.portIndex
              && forall o :: o in n.portMap ==> p in n.portMap && n.portMap[p].lastActive <= n.portMap[o].lastActive
    ensures !Full(n) ==>
              && p !in n.portMap && n'.portIndex == (if p == 60000 then 10000 else p + 1)
              && (forall o :: (if n.portIndex <= p then n.portIndex <= o < p
                               else n.portIndex <= o <= 60000 || 10000 <= o < p) ==> o in n.portMap)
  {
    if !Full(n) {
      var k: nat :| TookFree(n, n', src, dst, now, k) && p == Nth(n.portIndex, k);
      forall o | if n.portIndex <= p then n.portIndex <= o < p else n.portIndex <= o <= 60000 || 10000 <= o < p
        ensures o in n.portMap
      {
        var j: nat := if o >= n.portIndex then o - n.portIndex else o - n.portIndex + POOL;
        assert Nth(n.portIndex, j) == o;
      }
    }
  }

  /** Known sources and free ports leave no choice. */
  lemma OutIsDetermined(
      n: Nat, src: SocketAddr, dst: SocketAddr, now: int, n1: Nat, p1: nat, n2: Nat, p2: nat)
    requires Inverse(n) && OutStep(n, src, dst, now, n1, p1) && OutStep(n, src, dst, now, n2, p2)
    requires src in n.addrMap || !Full(n) || p1 == p2
    ensures p1 == p2 && n1 == n2
  {
    if src !in n.addrMap && !Full(n) {
      var k: nat :| TookFree(n, n1, src, dst, now, k) && p1 == Nth(n.portIndex, k);
      var j: nat :| TookFree(n, n2, src, dst, now, j) && p2 == Nth(n.portIndex, j);
      assert !(j < k) && !(k < j);
    }
  }

  lemma GcKeepsInverse(n: Nat, timeout: nat, now: int, n': Nat)
    requires Inverse(n) && GcStep(n, timeout, now, n')
    ensures Inverse(n')
  {
  }

  lemma StepKeepsInverse(n: Nat, e: Event, n': Nat)
    requires Inverse(n) && Step(n, e, n')
    ensures Inverse(n')
  {
    match e
    case Out(src, dst, now) =>
      var p: nat :| OutStep(n, src, dst, now, n', p);
      OutKeepsInverse(n, src, dst, now, n', p);
    case Back(_, _) =>
    case Collect(timeout, now) =>
      GcKeepsInverse(n, timeout, now, n');
  }

  /** One step ends a session only where `MayEnd` allows it, and an idle one always ends. */
  lemma StepKeepsSession(n: Nat, e: Event, n': Nat, src: SocketAddr, p: nat, dst: SocketAddr)
    requires Inverse(n) && Step(n, e, n') && Session(n, src, p, dst)
    ensures !MayEnd(n, e, p) ==> Session(n', src, p, dst)
    ensures e.Collect? ==> (MayEnd(n, e, p) <==> src !in n'.addrMap)
  {
  }

  lemma {:induction false} RunKeepsInverse(ns: seq<Nat>, es: seq<Event>)
    requires IsRun(ns, es) && Inverse(ns[0])
    ensures forall i :: 0 <= i < |ns| ==> Inverse(ns[i])
  {
    if es != [] {
      var m := |es| - 1;
      RunKeepsInverse(ns[..m + 1], es[..m]);
      assert ns[..m + 1][m] == ns[m];
      StepKeepsInverse(ns[m], es[m], ns[m + 1]);
    }
  }

  /** In every run, a session keeps its port and its recorded destination up to the first event that
      `MayEnd` it. */
  lemma {:induction false} RunKeepsSession(
      ns: seq<Nat>, es: seq<Event>, src: SocketAddr, p: nat, dst: SocketAddr)
    requires IsRun(ns, es) && Inverse(ns[0]) && Session(ns[0], src, p, dst)
    requires forall i :: 0 <= i < |es| && p in ns[i].portMap ==> !MayEnd(ns[i], es[i], p)
    ensures Session(ns[|es|], src, p, dst)
  {
    if es != [] {
      var m := |es| - 1;
      RunKeepsSession(ns[..m + 1], es[..m], src, p, dst);
      RunKeepsInverse(ns, es);
      StepKeepsSession(ns[m], es[m], ns[m + 1], src, p, dst);
    }
  }

  /** The time an event leaves behind on the session from `src` on port `p`: its own for a packet out from the
      source or back to the port, `was` otherwise. */
  function Used(e: Event, src: SocketAddr, p: nat, was: int): int {
    match e
    case Out(s, _, now) => if s == src then now else was
    case Back(port, now) => if port == p then now else was
    case Collect(_, _) => was
  }

  function LastUse(es: seq<Event>, src: SocketAddr, p: nat, start: int): int {
    if es == [] then start else Used(es[|es| - 1], src, p, LastUse(es[..|es| - 1], src, p, start))
  }

  lemma StepRecordsUse(n: Nat, e: Event, n': Nat, src: SocketAddr, p: nat, dst: SocketAddr)
    requires Inverse(n) && Step(n, e, n') && Session(n, src, p, dst) && !MayEnd(n, e, p)
    ensures Session(n', src, p, dst) && n'.portMap[p].lastActive == Used(e, src, p, n.portMap[p].lastActive)
  {
    StepKeepsSession(n, e, n', src, p, dst);
  }

  /** What a collection and an eviction go by is what happened: as long as a session lasts, its recorded activity
      is the time of its last packet in either direction. */
  lemma {:induction false} ActivityIsLastUse(
      ns: seq<Nat>, es: seq<Event>, src: SocketAddr, p: nat, dst: SocketAddr)
    requires IsRun(ns, es) && Inverse(ns[0]) && Session(ns[0], src, p, dst)
    requires forall i :: 0 <= i < |es| && p in ns[i].portMap ==> !MayEnd(ns[i], es[i], p)
    ensures Session(ns[|es|], src, p, dst)
    ensures ns[|es|].portMap[p].lastActive == LastUse(es, src, p, ns[0].portMap[p].lastActive)
  {
    if es != [] {
      var m := |es| - 1;
      var before := ns[..m + 1];
      ActivityIsLastUse(before, es[..m], src, p, dst);
      RunKeepsInverse(before, es[..m]);
      assert before[m] == ns[m] && before[0] == ns[0];
      StepRecordsUse(ns[m], es[m], ns[m + 1], src, p, dst);
    }
  }

  /** Translation never confuses two sources: live sessions have distinct ports in 10000..60000, and each port leads
      back to the source it was given to. */
  lemma PortsAreDistinct(ns: seq<Nat>, es: seq<Event>, i: nat, a: SocketAddr, b: SocketAddr)
    requires IsRun(ns, es) && ns[0] == Nat(NAT_PORT_START, map[], map[]) && i < |ns|
    requires a in ns[i].addrMap && b in ns[i].addrMap && a != b
    ensures ns[i].addrMap[a] != ns[i].addrMap[b] && 10000 <= ns[i].addrMap[a] <= 60000
    ensures exists dst :: Session(ns[i], a, ns[i].addrMap[a], dst)
  {
    RunKeepsInverse(ns, es);
    assert Session(ns[i], a, ns[i].addrMap[a], ns[i].portMap[ns[i].addrMap[a]].destination);
  }
}
