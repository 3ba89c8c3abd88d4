/** The FakeIP store as an object, the write log it leaves behind, the table the log is applied to,
    and the restoration of a store from that table. */
module FakeIpPersistence {
  import opened Bytes
  import opened FakeIp

  // ----- the table on disk -----

  datatype WriteOp =
    | StoreFakeip(ip: IpAddr, domain: Domain, lastSeen: nat)
    | TouchFakeip(ip: IpAddr, lastSeen: nat)

  datatype Row = Row(lastSeen: nat, domain: Domain)

  type Table = map<IpAddr, Row>

  /** `apply_op` on the FakeIP table: a touch of a missing row does nothing. */
  function ApplyOp(t: Table, op: WriteOp): Table {
    match op
    case StoreFakeip(ip, domain, seen) => t[ip := Row(seen, domain)]
    case TouchFakeip(ip, seen) => if ip in t then t[ip := Row(seen, t[ip].domain)] else t
  }

  /** `purge_stale_fakeip`. */
  function Purge(t: Table, cutoff: nat): Table {
    map ip | ip in t && t[ip].lastSeen >= cutoff :: t[ip]
  }

  /** What the writer task works through: queued operations in order, with cleanups anywhere between. */
  datatype Work = Op(op: WriteOp) | Cleanup(cutoff: nat)

  function Worked(t: Table, ws: seq<Work>): Table {
    if ws == [] then t else
      var before, last := Worked(t, ws[..|ws| - 1]), ws[|ws| - 1];
      if last.Op? then ApplyOp(before, last.op) else Purge(before, last.cutoff)
  }

  function Ops(ws: seq<Work>): seq<WriteOp> {
    if ws == [] then [] else
      var before, last := Ops(ws[..|ws| - 1]), ws[|ws| - 1];
      if last.Op? then before + [last.op] else before
  }

  /** The operation a request queues: a touch for a known domain, a store for a fresh one. */
  function Logged(s: Store, r: Request): seq<WriteOp> {
    if r.domain in s.Of(r.family).byDomain then
      [TouchFakeip(IpAddr(r.family, s.Of(r.family).byDomain[r.domain]), r.now)]
    else if Fresh(s, r.family, r.domain) then
      var p := s.Of(r.family);
      [StoreFakeip(IpAddr(r.family, NextInRing(r.family, p.net.value, p.current.value)), r.domain, r.now)]
    else []
  }

  ghost function Log(s: Store, rs: seq<Request>): seq<WriteOp> {
    if rs == [] then [] else
      var before, last := rs[..|rs| - 1], rs[|rs| - 1];
      Log(s, before) + Logged(After(s, before), last)
  }

  /** Every stored pair is live in memory. */
  ghost predicate Within(t: Table, s: Store) {
    forall ip :: ip in t ==> ip in s.domains && s.domains[ip] == t[ip].domain
  }

  lemma LoggedKeepsWithin(t: Table, s: Store, r: Request)
    requires Within(t, s)
    ensures var s' := Allocate(s, r.family, r.domain);
      && |Logged(s, r)| <= 1
      && (Logged(s, r) == [] ==> s' == s)
      && (Logged(s, r) != [] ==> Within(ApplyOp(t, Logged(s, r)[0]), s'))
  {
  }

  /** If the writer has worked through exactly what the run logged, cleanups included, the table is
      within the memory of that moment. */
  lemma {:induction false} WorkedLogIsWithin(t: Table, s: Store, rs: seq<Request>, ws: seq<Work>)
    requires Within(t, s) && Ops(ws) == Log(s, rs)
    ensures Within(Worked(t, ws), After(s, rs))
    decreases |ws| + |rs|
  {
    if ws != [] && ws[|ws| - 1].Cleanup? {
      WorkedLogIsWithin(t, s, rs, ws[..|ws| - 1]);
    } else if rs != [] {
      var before, last := rs[..|rs| - 1], rs[|rs| - 1];
      var m := After(s, before);
      if Logged(m, last) == [] {
        assert Log(s, before) == Log(s, rs);
        WorkedLogIsWithin(t, s, before, ws);
        LoggedKeepsWithin(Worked(t, ws), m, last);
      } else {
        LastOfLog(s, rs, ws);
        var earlier := ws[..|ws| - 1];
        WorkedLogIsWithin(t, s, before, earlier);
        LoggedKeepsWithin(Worked(t, earlier), m, last);
      }
    }
  }

  /** The writer is behind by some part of the log: there is a moment of the run whose memory holds every
      stored pair. */
  lemma {:induction false} AnyLogPrefixIsWithin(t: Table, s: Store, rs: seq<Request>, ws: seq<Work>)
    returns (k: nat)
    requires Within(t, s) && Ops(ws) <= Log(s, rs)
    ensures k <= |rs| && Ops(ws) == Log(s, rs[..k])
    ensures Within(Worked(t, ws), After(s, rs[..k]))
  {
    if Ops(ws) == Log(s, rs) {
      k := |rs|;
      assert rs[..k] == rs;
      WorkedLogIsWithin(t, s, rs, ws);
    } else {
      var before := rs[..|rs| - 1];
      assert rs != [];
      LoggedKeepsWithin(map[], After(s, before), rs[|rs| - 1]);
      assert Ops(ws) <= Log(s, before);
      k := AnyLogPrefixIsWithin(t, s, before, ws);
      assert before[..k] == rs[..k];
    }
  }

  // ----- what the table holds -----

  predicate StoreAt(ws: seq<Work>, i: int, ip: IpAddr) {
    0 <= i < |ws| && ws[i].Op? && ws[i].op.StoreFakeip? && ws[i].op.ip == ip
  }

  predicate UseAt(ws: seq<Work>, i: int, ip: IpAddr) { 0 <= i < |ws| && ws[i].Op? && ws[i].op.ip == ip }

  /** The address was last stored just before step `from`, or stood in the table all along if that is 0. */
  ghost predicate Born(t: Table, ws: seq<Work>, ip: IpAddr, from: nat) {
    && from <= |ws| && (if from == 0 then ip in t else StoreAt(ws, from - 1, ip))
    && forall j :: from <= j < |ws| ==> !StoreAt(ws, j, ip)
  }

  /** The domain it was stored with. */
  function BornAs(t: Table, ws: seq<Work>, ip: IpAddr, from: nat): Domain
    requires if from == 0 then ip in t else StoreAt(ws, from - 1, ip)
  {
    if from == 0 then t[ip].domain else ws[from - 1].op.domain
  }

  /** The time of its last store or touch before step `n`. */
  function LastUse(t: Table, ws: seq<Work>, ip: IpAddr, from: nat, n: nat): nat
    requires if from == 0 then ip in t else StoreAt(ws, from - 1, ip)
    requires from <= n <= |ws|
  {
    if n > from then if UseAt(ws, n - 1, ip) then ws[n - 1].op.lastSeen else LastUse(t, ws, ip, from, n - 1)
    else if from == 0 then t[ip].lastSeen else ws[from - 1].op.lastSeen
  }

  /** No cleanup before step `n` had a cutoff above the last use at that time. */
  ghost predicate KeptUp(t: Table, ws: seq<Work>, ip: IpAddr, from: nat, n: nat)
    requires if from == 0 then ip in t else StoreAt(ws, from - 1, ip)
    requires from <= n <= |ws|
  {
    forall j :: from <= j < n && ws[j].Cleanup? ==> ws[j].cutoff <= LastUse(t, ws, ip, from, j)
  }

  lemma {:induction false} RowAfter(t: Table, ws: seq<Work>, ip: IpAddr, from: nat, n: nat)
    requires Born(t, ws, ip, from) && from <= n <= |ws|
    ensures var kept := Worked(t, ws[..n]);
      && (ip in kept <==> KeptUp(t, ws, ip, from, n))
      && (ip in kept ==> kept[ip] == Row(LastUse(t, ws, ip, from, n), BornAs(t, ws, ip, from)))
  {
    if n == from {
      assert from > 0 ==> ws[..n][..n - 1] == ws[..n - 1];
    } else {
      RowAfter(t, ws, ip, from, n - 1);
      assert ws[..n][..n - 1] == ws[..n - 1] && !StoreAt(ws, n - 1, ip);
      KeptUpOneMore(t, ws, ip, from, n);
    }
  }

  lemma KeptUpOneMore(t: Table, ws: seq<Work>, ip: IpAddr, from: nat, n: nat)
    requires Born(t, ws, ip, from) && from < n <= |ws|
    ensures KeptUp(t, ws, ip, from, n) <==>
            KeptUp(t, ws, ip, from, n - 1)
            && (ws[n - 1].Cleanup? ==> ws[n - 1].cutoff <= LastUse(t, ws, ip, from, n - 1))
  {
  }

  /** The domain an address was last stored with, cleanups aside. */
  function LastStored(t: Table, ws: seq<Work>, ip: IpAddr): Option<Domain> {
    if ws == [] then if ip in t then Some(t[ip].domain) else None
    else if StoreAt(ws, |ws| - 1, ip) then Some(ws[|ws| - 1].op.domain)
    else LastStored(t, ws[..|ws| - 1], ip)
  }

  lemma {:induction false} LastStoredIsBorn(t: Table, ws: seq<Work>, ip: IpAddr) returns (from: nat)
    requires LastStored(t, ws, ip).Some?
    ensures Born(t, ws, ip, from) && LastStored(t, ws, ip) == Some(BornAs(t, ws, ip, from))
  {
    if ws == [] {
      from := 0;
    } else if StoreAt(ws, |ws| - 1, ip) {
      from := |ws|;
    } else {
      var front := ws[..|ws| - 1];
      from := LastStoredIsBorn(t, front, ip);
      assert forall j :: StoreAt(front, j, ip) <==> StoreAt(ws, j, ip);
    }
  }

  lemma {:induction false} NeverStoredHasNoRow(t: Table, ws: seq<Work>, ip: IpAddr)
    requires LastStored(t, ws, ip).None?
    ensures ip !in Worked(t, ws)
  {
    if ws != [] {
      NeverStoredHasNoRow(t, ws[..|ws| - 1], ip);
    }
  }

  /** The table after any work, queued operations and cleanups in any order: a row stands for an address exactly when
      the address was stored, or was there before, and since then no cleanup had a cutoff above its last use; it then
      names the domain of the last store and the time of the last store or touch. */
  lemma {:induction false} RowExactlyWhenKeptUp(t: Table, ws: seq<Work>, ip: IpAddr)
    ensures ip in Worked(t, ws) <==> exists from: nat :: Born(t, ws, ip, from) && KeptUp(t, ws, ip, from, |ws|)
    ensures forall from: nat :: Born(t, ws, ip, from) && ip in Worked(t, ws) ==>
              Worked(t, ws)[ip] == Row(LastUse(t, ws, ip, from, |ws|), BornAs(t, ws, ip, from))
  {
    assert ws[..|ws|] == ws;
    if LastStored(t, ws, ip).None? {
      NeverStoredHasNoRow(t, ws, ip);
    } else {
      var from := LastStoredIsBorn(t, ws, ip);
      RowAfter(t, ws, ip, from, |ws|);
    }
    forall from: nat | Born(t, ws, ip, from)
      ensures ip in Worked(t, ws) <==> KeptUp(t, ws, ip, from, |ws|)
      ensures ip in Worked(t, ws) ==>
                Worked(t, ws)[ip] == Row(LastUse(t, ws, ip, from, |ws|), BornAs(t, ws, ip, from))
    {
      RowAfter(t, ws, ip, from, |ws|);
    }
  }

  /** The pairs of a table, without the times. */
  function PairsOf(t: Table): map<IpAddr, Domain> { map ip | ip in t :: t[ip].domain }

  /** What a request queues names the address it is answered with and its time: a store of the domain if the domain
      had no address before, a touch otherwise, and nothing if there is no answer. */
  lemma LoggedNamesTheAnswer(s: Store, r: Request)
    ensures var answer := AddressOf(Allocate(s, r.family, r.domain), r.family, r.domain);
      && (answer.None? <==> Logged(s, r) == [])
      && (answer.Some? ==>
            var ip := IpAddr(r.family, answer.value);
            Logged(s, r) == [if AddressOf(s, r.family, r.domain).None? then StoreFakeip(ip, r.domain, r.now)
                             else TouchFakeip(ip, r.now)])
  {
  }

  lemma StoredLikeMemory(s: Store, r: Request, ip: IpAddr)
    ensures var s' := Allocate(s, r.family, r.domain);
      if Logged(s, r) != [] && Logged(s, r)[0].StoreFakeip? && Logged(s, r)[0].ip == ip
      then ip in s'.domains && s'.domains[ip] == Logged(s, r)[0].domain
      else (ip in s'.domains <==> ip in s.domains) && (ip in s.domains ==> s'.domains[ip] == s.domains[ip])
  {
  }

  function Live(s: Store, ip: IpAddr): Option<Domain> { if ip in s.domains then Some(s.domains[ip]) else None }

  /** What was last stored for an address is what it stands for in memory. */
  lemma {:induction false} LastStoredIsLive(t: Table, s: Store, rs: seq<Request>, ws: seq<Work>, ip: IpAddr)
    requires PairsOf(t) == s.domains && Ops(ws) == Log(s, rs)
    ensures LastStored(t, ws, ip) == Live(After(s, rs), ip)
    decreases |ws| + |rs|
  {
    if ws != [] && ws[|ws| - 1].Cleanup? {
      LastStoredIsLive(t, s, rs, ws[..|ws| - 1], ip);
    } else if rs == [] {
      assert ws != [] ==> |Ops(ws)| > 0;
      assert PairsOf(t).Keys == t.Keys;
    } else {
      var before, last := rs[..|rs| - 1], rs[|rs| - 1];
      StoredLikeMemory(After(s, before), last, ip);
      if Logged(After(s, before), last) == [] {
        assert Log(s, before) == Log(s, rs);
        LastStoredIsLive(t, s, before, ws, ip);
      } else {
        LastOfLog(s, rs, ws);
        LastStoredIsLive(t, s, before, ws[..|ws| - 1], ip);
      }
    }
  }

  /** The last operation worked off is the one the last request queued. */
  lemma {:induction false} LastOfLog(s: Store, rs: seq<Request>, ws: seq<Work>)
    requires Ops(ws) == Log(s, rs) && rs != [] && (ws != [] ==> ws[|ws| - 1].Op?)
    requires Logged(After(s, rs[..|rs| - 1]), rs[|rs| - 1]) != []
    ensures ws != [] && ws[|ws| - 1] == Op(Logged(After(s, rs[..|rs| - 1]), rs[|rs| - 1])[0])
    ensures Ops(ws[..|ws| - 1]) == Log(s, rs[..|rs| - 1])
  {
    var before, last := rs[..|rs| - 1], rs[|rs| - 1];
    var logged := Logged(After(s, before), last);
    assert |logged| == 1 && |Log(s, rs)| > 0 && ws != [];
    var earlier, op := ws[..|ws| - 1], ws[|ws| - 1].op;
    assert Ops(ws) == Ops(earlier) + [op] && Log(s, rs) == Log(s, before) + [logged[0]];
    assert Ops(earlier) == Ops(ws)[..|Ops(ws)| - 1] && Log(s, before) == Log(s, rs)[..|Log(s, rs)| - 1];
    assert op == Ops(ws)[|Ops(ws)| - 1] == logged[0];
  }

  /** Once the writer has caught up with a run that began with memory and table alike, a live pair is missing from the
      table exactly when, since the address was last stored, some cleanup had a cutoff above its last use; every
      other pair is there, and nothing else is. */
  lemma {:induction false} MissingExactlyWhenUnused(t: Table, s: Store, rs: seq<Request>, ws: seq<Work>, ip: IpAddr)
    requires PairsOf(t) == s.domains && Ops(ws) == Log(s, rs)
    ensures var live, kept := After(s, rs).domains, Worked(t, ws);
      && (ip in live <==> exists from: nat :: Born(t, ws, ip, from))
      && (forall from: nat :: Born(t, ws, ip, from) ==>
            && live[ip] == BornAs(t, ws, ip, from)
            && (ip in kept <==> KeptUp(t, ws, ip, from, |ws|)))
      && (ip in kept ==> ip in live && kept[ip].domain == live[ip])
  {
    LastStoredIsLive(t, s, rs, ws, ip);
    RowExactlyWhenKeptUp(t, ws, ip);
    if LastStored(t, ws, ip).Some? {
      var from := LastStoredIsBorn(t, ws, ip);
      BornOnce(t, ws, ip, from);
    } else {
      NeverBorn(t, ws, ip);
    }
  }

  lemma BornOnce(t: Table, ws: seq<Work>, ip: IpAddr, from: nat)
    requires Born(t, ws, ip, from)
    ensures forall other: nat :: Born(t, ws, ip, other) ==> other == from
  {
    forall other: nat | Born(t, ws, ip, other) ensures other == from {
      assert other < from ==> !StoreAt(ws, from - 1, ip);
      assert from < other ==> !StoreAt(ws, other - 1, ip);
    }
  }

  lemma {:induction false} NeverBorn(t: Table, ws: seq<Work>, ip: IpAddr)
    requires LastStored(t, ws, ip).None?
    ensures forall from: nat :: !Born(t, ws, ip, from)
  {
    if ws != [] {
      var front := ws[..|ws| - 1];
      NeverBorn(t, front, ip);
      forall from: nat | Born(t, ws, ip, from) ensures false {
        assert forall j :: StoreAt(front, j, ip) ==> StoreAt(ws, j, ip);
        assert from <= |front| && Born(t, front, ip, from);
      }
    }
  }

  /** Without cleanups the table ends up with exactly the live pairs. */
  lemma {:induction false} WithoutCleanupsAllIsStored(t: Table, s: Store, rs: seq<Request>, ws: seq<Work>)
    requires PairsOf(t) == s.domains && Ops(ws) == Log(s, rs) && forall j :: 0 <= j < |ws| ==> ws[j].Op?
    ensures PairsOf(Worked(t, ws)) == After(s, rs).domains
  {
    forall ip
      ensures ip in Worked(t, ws) <==> ip in After(s, rs).domains
      ensures ip in Worked(t, ws) ==> Worked(t, ws)[ip].domain == After(s, rs).domains[ip]
    {
      MissingExactlyWhenUnused(t, s, rs, ws, ip);
    }
  }

  // ----- restoring -----

  type Record = (IpAddr, Domain)

  function RestoreOne(s: Store, ip: IpAddr, d: Domain): Store {
    var p := s.Of(ip.family);
    if !InRange(p.net, ip.n) then s else
      var current :=
        if p.current.Some? && ip.n >= p.current.value then Some(Succ(ip.family, ip.n)) else p.current;
      Store(s.four, s.six, s.domains[ip := d]).With(ip.family, Pool(p.net, current, p.byDomain[d := ip.n]))
  }

  function RestoreAll(s: Store, records: seq<Record>): Store {
    if records == [] then s else
      var last := records[|records| - 1];
      RestoreOne(RestoreAll(s, records[..|records| - 1]), last.0, last.1)
  }

  function Rewound(f: Family, p: Pool): Pool {
    if p.net.Some? && p.current.Some? && p.current.value >= p.net.value.last
    then p.(current := Some(Succ(f, p.net.value.first))) else p
  }

  function Restored(four: Option<Net>, six: Option<Net>, records: seq<Record>): Store {
    var s := RestoreAll(Initial(four, six), records);
    Store(Rewound(Four, s.four), Rewound(Six, s.six), s.domains)
  }

  /** `records` lists the rows of `t`, each once, in some order. */
  ghost predicate Lists(records: seq<Record>, t: Table) {
    && (forall i :: 0 <= i < |records| ==> records[i].0 in t && t[records[i].0].domain == records[i].1)
    && (forall i, j :: 0 <= i < j < |records| ==> records[i].0 != records[j].0)
    && (forall ip :: ip in t ==> exists i :: 0 <= i < |records| && records[i].0 == ip)
  }

  /** No two rows of a family name the same domain, and every row is in its range and has a successor. */
  ghost predicate DistinctRows(records: seq<Record>, four: Option<Net>, six: Option<Net>) {
    && (forall i :: 0 <= i < |records| ==>
          Holdable(records[i].0.family, if records[i].0.family == Four then four else six, records[i].0.n))
    && (forall i, j :: 0 <= i < j < |records| ==>
          records[i].0 != records[j].0
          && (records[i].0.family == records[j].0.family ==> records[i].1 != records[j].1))
  }

  /** While restoring, the cursor may run past the range; everything else is as in `Inv`. */
  ghost predicate Restoring(s: Store) {
    forall f :: OneToOne(s, f) && CursorPastFirst(f, s.Of(f))
  }

  predicate CursorPastFirst(f: Family, p: Pool) {
    if p.net.None? then p.current.None? else
      Usable(f, p.net.value) && p.current.Some? && p.net.value.first < p.current.value
  }

  lemma RestoreOneKeeps(s: Store, ip: IpAddr, d: Domain)
    requires Restoring(s) && ip !in s.domains && d !in s.Of(ip.family).byDomain
    requires Holdable(ip.family, s.Of(ip.family).net, ip.n)
    ensures Restoring(RestoreOne(s, ip, d))
    ensures RestoreOne(s, ip, d).domains == s.domains[ip := d]
    ensures forall f :: RestoreOne(s, ip, d).Of(f).net == s.Of(f).net
  {
    var s' := RestoreOne(s, ip, d);
    forall f ensures OneToOne(s', f) && CursorPastFirst(f, s'.Of(f)) {
      assert OneToOne(s, f) && CursorPastFirst(f, s.Of(f));
    }
  }

  function Pairs(records: seq<Record>): map<IpAddr, Domain> {
    if records == [] then map[] else
      Pairs(records[..|records| - 1])[records[|records| - 1].0 := records[|records| - 1].1]
  }

  lemma {:induction false} PairsFrom(records: seq<Record>, ip: IpAddr)
    requires ip in Pairs(records)
    ensures (ip, Pairs(records)[ip]) in records
  {
    if ip != records[|records| - 1].0 {
      PairsFrom(records[..|records| - 1], ip);
    }
  }

  lemma {:induction false} PairsHave(records: seq<Record>, i: nat)
    requires i < |records|
    requires forall i, j :: 0 <= i < j < |records| ==> records[i].0 != records[j].0
    ensures records[i].0 in Pairs(records) && Pairs(records)[records[i].0] == records[i].1
  {
    if i < |records| - 1 {
      PairsHave(records[..|records| - 1], i);
    }
  }

  lemma {:induction false} PairsOfListing(records: seq<Record>, t: Table)
    requires Lists(records, t)
    ensures Pairs(records) == PairsOf(t)
  {
    forall ip | ip in Pairs(records)
      ensures ip in t && t[ip].domain == Pairs(records)[ip]
    {
      PairsFrom(records, ip);
    }
    forall ip | ip in t
      ensures ip in Pairs(records)
    {
      var i :| 0 <= i < |records| && records[i].0 == ip;
      PairsHave(records, i);
    }
  }

  lemma {:induction false} RestoreAllKeeps(four: Option<Net>, six: Option<Net>, records: seq<Record>)
    requires UsableOrAbsent(Four, four) && UsableOrAbsent(Six, six) && DistinctRows(records, four, six)
    ensures var s := RestoreAll(Initial(four, six), records);
      Restoring(s) && s.four.net == four && s.six.net == six && s.domains == Pairs(records)
  {
    if records != [] {
      var before, last := records[..|records| - 1], records[|records| - 1];
      RestoreAllKeeps(four, six, before);
      var m := RestoreAll(Initial(four, six), before);
      var f := last.0.family;
      assert OneToOne(m, f);
      if last.0 in m.domains {
        PairsFrom(before, last.0);
        assert false;
      }
      if last.1 in m.Of(f).byDomain {
        PairsFrom(before, IpAddr(f, m.Of(f).byDomain[last.1]));
        assert false;
      }
      RestoreOneKeeps(m, last.0, last.1);
      var s := RestoreAll(Initial(four, six), records);
      assert s.Of(Four).net == m.Of(Four).net && s.Of(Six).net == m.Of(Six).net;
    }
  }

  lemma RewindKeeps(m: Store)
    requires Restoring(m)
    ensures Inv(Store(Rewound(Four, m.four), Rewound(Six, m.six), m.domains))
  {
    var s := Store(Rewound(Four, m.four), Rewound(Six, m.six), m.domains);
    forall f ensures CursorInside(f, s.Of(f)) && OneToOne(s, f) {
      assert OneToOne(m, f) && CursorPastFirst(f, m.Of(f));
    }
  }

  /** A row of a configured range; the others are skipped. */
  predicate Kept(four: Option<Net>, six: Option<Net>, r: Record) {
    InRange(if r.0.family == Four then four else six, r.0.n)
  }

  /** An address that leads to a domain does so because of a row. */
  ghost predicate FromRow(s: Store, four: Option<Net>, six: Option<Net>, records: seq<Record>, ip: IpAddr) {
    ip in s.domains ==> (ip, s.domains[ip]) in records && Kept(four, six, (ip, s.domains[ip]))
  }

  /** A domain that leads to an address does so because of a row. */
  ghost predicate ByRow(s: Store, four: Option<Net>, six: Option<Net>, records: seq<Record>, f: Family, d: Domain) {
    d in s.Of(f).byDomain ==>
      var r := (IpAddr(f, s.Of(f).byDomain[d]), d); r in records && Kept(four, six, r)
  }

  ghost predicate Held(s: Store, r: Record) {
    r.0 in s.domains && s.domains[r.0] == r.1 && r.1 in s.Of(r.0.family).byDomain
  }

  /** The maps of a store hold exactly the rows kept; of several rows with one domain, one is found by it. */
  ghost predicate HoldsRows(s: Store, four: Option<Net>, six: Option<Net>, records: seq<Record>) {
    && (forall ip :: FromRow(s, four, six, records, ip))
    && (forall r :: r in records && Kept(four, six, r) ==> Held(s, r))
    && (forall f, d :: ByRow(s, four, six, records, f, d))
  }

  /** No address has two rows, as in any table. */
  ghost predicate OneRowEach(records: seq<Record>) {
    forall r, r' :: r in records && r' in records && r.0 == r'.0 ==> r == r'
  }

  lemma {:induction false} RestoreAllHoldsRows(four: Option<Net>, six: Option<Net>, records: seq<Record>)
    requires OneRowEach(records)
    ensures var s := RestoreAll(Initial(four, six), records);
      HoldsRows(s, four, six, records) && s.Of(Four).net == four && s.Of(Six).net == six
  {
    if records != [] {
      var before, last := records[..|records| - 1], records[|records| - 1];
      assert records == before + [last];
      RestoreAllHoldsRows(four, six, before);
      RestoreOneHoldsRow(RestoreAll(Initial(four, six), before), four, six, before, last);
    }
  }

  lemma RestoreOneHoldsRow(s: Store, four: Option<Net>, six: Option<Net>, before: seq<Record>, last: Record)
    requires HoldsRows(s, four, six, before) && s.Of(Four).net == four && s.Of(Six).net == six
    requires OneRowEach(before + [last])
    ensures var s' := RestoreOne(s, last.0, last.1);
      HoldsRows(s', four, six, before + [last]) && s'.Of(Four).net == four && s'.Of(Six).net == six
  {
    var all, s' := before + [last], RestoreOne(s, last.0, last.1);
    assert last in all && (forall r :: r in before ==> r in all) && (forall r :: r in all ==> r in before || r == last);
    forall ip ensures FromRow(s', four, six, all, ip) {
      assert FromRow(s, four, six, before, ip);
    }
    forall f, d ensures ByRow(s', four, six, all, f, d) {
      assert ByRow(s, four, six, before, f, d);
    }
    forall r | r in all && Kept(four, six, r) ensures Held(s', r) {
      assert r in before ==> Held(s, r);
    }
  }

  ghost predicate RowOf(four: Option<Net>, six: Option<Net>, records: seq<Record>, f: Family, r: Record) {
    r in records && r.0.family == f && Kept(four, six, r)
  }

  /** No two rows kept of a family name one domain. */
  ghost predicate DomainsOnce(four: Option<Net>, six: Option<Net>, records: seq<Record>, f: Family) {
    forall r, r' :: RowOf(four, six, records, f, r) && RowOf(four, six, records, f, r') && r.1 == r'.1 ==> r == r'
  }

  /** Whatever the table and the ranges: the maps restored for a family are inverse exactly when no domain stands
      in two of its in-range rows, as it can once a range was narrowed and widened again. */
  lemma RestoredIsMirroredExactlyWhen(four: Option<Net>, six: Option<Net>, records: seq<Record>, f: Family)
    requires OneRowEach(records)
    ensures Mirrored(Restored(four, six, records), f) <==> DomainsOnce(four, six, records, f)
  {
    RestoreAllHoldsRows(four, six, records);
    var s := RestoreAll(Initial(four, six), records);
    RewindingKeepsMirrored(s, f);
    if Mirrored(s, f) {
      MirroredHasDomainsOnce(s, four, six, records, f);
    }
    if DomainsOnce(four, six, records, f) {
      DomainsOnceIsMirrored(s, four, six, records, f);
    }
  }

  lemma RewindingKeepsMirrored(s: Store, f: Family)
    ensures Mirrored(Store(Rewound(Four, s.four), Rewound(Six, s.six), s.domains), f) <==> Mirrored(s, f)
  {
    assert Store(Rewound(Four, s.four), Rewound(Six, s.six), s.domains).Of(f).byDomain == s.Of(f).byDomain;
  }

  lemma MirroredHasDomainsOnce(s: Store, four: Option<Net>, six: Option<Net>, records: seq<Record>, f: Family)
    requires HoldsRows(s, four, six, records) && OneRowEach(records) && Mirrored(s, f)
    ensures DomainsOnce(four, six, records, f)
  {
    forall r, r' | RowOf(four, six, records, f, r) && RowOf(four, six, records, f, r') && r.1 == r'.1 ensures r == r' {
      assert Held(s, r) && Held(s, r');
      assert s.Of(f).byDomain[r.1] == r.0.n && s.Of(f).byDomain[r'.1] == r'.0.n;
    }
  }

  lemma DomainsOnceIsMirrored(s: Store, four: Option<Net>, six: Option<Net>, records: seq<Record>, f: Family)
    requires HoldsRows(s, four, six, records) && DomainsOnce(four, six, records, f)
    ensures Mirrored(s, f)
  {
    forall d | d in s.Of(f).byDomain
      ensures var a := IpAddr(f, s.Of(f).byDomain[d]); a in s.domains && s.domains[a] == d
    {
      assert ByRow(s, four, six, records, f, d);
      assert Held(s, (IpAddr(f, s.Of(f).byDomain[d]), d));
    }
    forall a | a in s.domains && a.family == f
      ensures s.domains[a] in s.Of(f).byDomain && s.Of(f).byDomain[s.domains[a]] == a.n
    {
      var d := s.domains[a];
      assert FromRow(s, four, six, records, a);
      assert Held(s, (a, d)) && ByRow(s, four, six, records, f, d);
      assert RowOf(four, six, records, f, (a, d));
      assert RowOf(four, six, records, f, (IpAddr(f, s.Of(f).byDomain[d]), d));
    }
  }

  /** Restoring a table of in-range rows that name distinct domains rebuilds exactly those pairs, one to one in
      both directions, with the cursors inside their pools. */
  lemma RestoredIsSound(four: Option<Net>, six: Option<Net>, records: seq<Record>, t: Table)
    requires UsableOrAbsent(Four, four) && UsableOrAbsent(Six, six)
    requires Lists(records, t) && DistinctRows(records, four, six)
    ensures var s := Restored(four, six, records);
      && Inv(s) && s.four.net == four && s.six.net == six
      && s.domains == PairsOf(t) && Within(t, s)
  {
    RestoreAllKeeps(four, six, records);
    PairsOfListing(records, t);
    var m, s := RestoreAll(Initial(four, six), records), Restored(four, six, records);
    assert Inv(s) by {
      RewindKeeps(m);
    }
  }

  lemma ListingIsDistinct(live: Store, t: Table, records: seq<Record>)
    requires Inv(live) && Within(t, live) && Lists(records, t)
    ensures DistinctRows(records, live.Of(Four).net, live.Of(Six).net)
  {
  }

  /** One life of the process: started within the table it found, it serves any run of requests while the
      writer works through any part of the log, cleanups interleaved; what the table then holds is a subset
      of what was live at some moment, and a restart with the same ranges, reading the rows in any order,
      is again one to one, inside its pools and holds exactly the pairs of its table. */
  lemma {:induction false} RestartIsSound(t: Table, s: Store, rs: seq<Request>, ws: seq<Work>, records: seq<Record>)
    requires Inv(s) && Within(t, s)
    requires Ops(ws) <= Log(s, rs) && Lists(records, Worked(t, ws))
    ensures exists k: nat :: k <= |rs| && Ops(ws) == Log(s, rs[..k]) && Within(Worked(t, ws), After(s, rs[..k]))
    ensures var s' := Restored(s.four.net, s.six.net, records);
      && Inv(s') && Within(Worked(t, ws), s') && s'.domains == PairsOf(Worked(t, ws))
      && s'.four.net == s.four.net && s'.six.net == s.six.net
  {
    var k := AnyLogPrefixIsWithin(t, s, rs, ws);
    RunKeepsInv(s, rs[..k]);
    var live := After(s, rs[..k]);
    assert live.Of(Four).net == s.Of(Four).net && live.Of(Six).net == s.Of(Six).net;
    LiveTableRestores(live, Worked(t, ws), records);
  }

  lemma LiveTableRestores(live: Store, t: Table, records: seq<Record>)
    requires Inv(live) && Within(t, live) && Lists(records, t)
    ensures var s := Restored(live.four.net, live.six.net, records);
      && Inv(s) && Within(t, s) && s.domains == PairsOf(t)
      && s.four.net == live.four.net && s.six.net == live.six.net
  {
    var four, six := live.Of(Four).net, live.Of(Six).net;
    assert UsableOrAbsent(Four, four) && UsableOrAbsent(Six, six) by {
      assert CursorInside(Four, live.Of(Four)) && CursorInside(Six, live.Of(Six));
    }
    ListingIsDistinct(live, t, records);
    RestoredIsSound(four, six, records, t);
  }

  /** A life of the process: the requests it serves, the work its writer gets done, and the rows the next life
      reads. */
  datatype Life = Life(requests: seq<Request>, work: seq<Work>, records: seq<Record>)

  /** The table and the store after some lives, each starting from what the one before left behind. */
  ghost function Lived(t: Table, s: Store, lives: seq<Life>): (Table, Store)
    decreases |lives|
  {
    if lives == [] then (t, s) else
      Lived(Worked(t, lives[0].work), Restored(s.four.net, s.six.net, lives[0].records), lives[1..])
  }

  /** Each writer works off part of its own life's log, and each restart reads the table it finds. */
  ghost predicate Possible(t: Table, s: Store, lives: seq<Life>)
    decreases |lives|
  {
    lives == [] ||
    var life := lives[0];
    var t' := Worked(t, life.work);
    && Ops(life.work) <= Log(s, life.requests) && Lists(life.records, t')
    && Possible(t', Restored(s.four.net, s.six.net, life.records), lives[1..])
  }

  /** Any number of restarts, from the first start with an empty table on: the store is one to one, inside its
      pools and within its table. */
  lemma {:induction false} AnyNumberOfRestartsIsSound(t: Table, s: Store, lives: seq<Life>)
    requires Inv(s) && Within(t, s) && Possible(t, s, lives)
    ensures var (t', s') := Lived(t, s, lives);
      && Inv(s') && Within(t', s') && s'.four.net == s.four.net && s'.six.net == s.six.net
      && (lives != [] ==> s'.domains == PairsOf(t'))
    decreases |lives|
  {
    if lives != [] {
      var life := lives[0];
      RestartIsSound(t, s, life.requests, life.work, life.records);
      AnyNumberOfRestartsIsSound(
        Worked(t, life.work), Restored(s.four.net, s.six.net, life.records), lives[1..]);
    }
  }

  /** All the work done in some lives, one after the other. */
  function AllWork(lives: seq<Life>): seq<Work> { if lives == [] then [] else lives[0].work + AllWork(lives[1..]) }

  lemma {:induction false} WorkedOn(t: Table, a: seq<Work>, b: seq<Work>)
    ensures Worked(Worked(t, a), b) == Worked(t, a + b)
  {
    if b == [] {
      assert a + b == a;
    } else {
      var n := |b| - 1;
      WorkedOn(t, a, b[..n]);
      assert (a + b)[..|a| + n] == a + b[..n];
    }
  }

  lemma {:induction false} LivesAreOneWork(t: Table, s: Store, lives: seq<Life>)
    ensures Lived(t, s, lives).0 == Worked(t, AllWork(lives))
    decreases |lives|
  {
    if lives != [] {
      var life := lives[0];
      LivesAreOneWork(Worked(t, life.work), Restored(s.four.net, s.six.net, life.records), lives[1..]);
      WorkedOn(t, life.work, AllWork(lives[1..]));
    }
  }

  /** After any number of restarts from the first start on: the store is one to one and inside its pools, and an
      address stands for a domain exactly when a store for it was ever written and since the last of those no cleanup
      had a cutoff above its last use; the domain is that of the last store. */
  lemma {:induction false} SoundFromTheFirstStart(
      four: Option<Net>, six: Option<Net>, lives: seq<Life>, ip: IpAddr, from: nat)
    requires UsableOrAbsent(Four, four) && UsableOrAbsent(Six, six) && Possible(map[], Initial(four, six), lives)
    ensures var (t, s) := Lived(map[], Initial(four, six), lives); Inv(s) && s.domains == PairsOf(t)
    ensures var s, ws := Lived(map[], Initial(four, six), lives).1, AllWork(lives);
      && (ip in s.domains <==> exists i: nat :: Born(map[], ws, ip, i) && KeptUp(map[], ws, ip, i, |ws|))
      && (Born(map[], ws, ip, from) && ip in s.domains ==> s.domains[ip] == BornAs(map[], ws, ip, from))
  {
    var s, ws := Initial(four, six), AllWork(lives);
    InitialHasInv(four, six);
    AnyNumberOfRestartsIsSound(map[], s, lives);
    LivesAreOneWork(map[], s, lives);
    RowExactlyWhenKeptUp(map[], ws, ip);
  }

  /** The last in-range row read for family `f` is the all-ones address. */
  predicate EndsOnAllOnes(f: Family, net: Net, records: seq<Record>) {
    records != [] &&
    var last := records[|records| - 1].0;
    if last.family == f && InRange(Some(net), last.n) then last.n + 1 == Pow2(Width(f))
    else EndsOnAllOnes(f, net, records[..|records| - 1])
  }

  lemma {:induction false} CursorAfterRestoring(
      f: Family, four: Option<Net>, six: Option<Net>, records: seq<Record>)
    requires var net := Initial(four, six).Of(f).net; net.Some? && Usable(f, net.value)
    ensures var p := RestoreAll(Initial(four, six), records).Of(f);
      && p.net == Initial(four, six).Of(f).net && p.current.Some?
      && (EndsOnAllOnes(f, p.net.value, records) ==> p.current.value == 0)
      && (!EndsOnAllOnes(f, p.net.value, records) ==>
            p.net.value.first < p.current.value <= p.net.value.last + 1 && p.current.value < Pow2(Width(f)))
  {
    if records != [] {
      CursorAfterRestoring(f, four, six, records[..|records| - 1]);
    }
  }

  /** For any rows at all, whatever their ranges, repetitions and order: the restored cursor is inside its
      pool exactly when the last in-range row read is not the all-ones address, whose successor wraps to 0. */
  lemma {:induction false} CursorInsideUnlessWrapped(
      f: Family, four: Option<Net>, six: Option<Net>, records: seq<Record>)
    requires var net := Initial(four, six).Of(f).net; net.Some? && Usable(f, net.value)
    ensures CursorInside(f, Restored(four, six, records).Of(f)) <==>
            !EndsOnAllOnes(f, Initial(four, six).Of(f).net.value, records)
  {
    CursorAfterRestoring(f, four, six, records);
  }

  // ----- the store -----

  class FakeIpStore {
    const inet4Net: Option<Net>
    const inet6Net: Option<Net>
    /** Whether a cache file that stores FakeIP entries is attached; its channel is `queued`. */
    const persistent: bool
    var inet4Current: Option<nat>
    var inet6Current: Option<nat>
    var addrToDomain: map<IpAddr, Domain>
    var domainToV4: map<Domain, nat>
    var domainToV6: map<Domain, nat>
    var queued: seq<WriteOp>

    ghost function View(): Store
      reads this
    {
      Store(Pool(inet4Net, inet4Current, domainToV4), Pool(inet6Net, inet6Current, domainToV6), addrToDomain)
    }

    /** `new_with_cache`: rows outside the configured ranges are skipped. */
    constructor (four: Option<Net>, six: Option<Net>, persistent: bool, records: seq<Record>)
      ensures inet4Net == four && inet6Net == six && this.persistent == persistent && queued == []
      ensures View() == if persistent then Restored(four, six, records) else Initial(four, six)
    {
      inet4Net, inet6Net, this.persistent := four, six, persistent;
      inet4Current := if four.Some? then Some(Succ(Four, four.value.first)) else None;
      inet6Current := if six.Some? then Some(Succ(Six, six.value.first)) else None;
      addrToDomain, domainToV4, domainToV6, queued := map[], map[], map[], [];
      new;
      if persistent {
        var i := 0;
        while i < |records|
          invariant 0 <= i <= |records| && queued == []
          invariant View() == RestoreAll(Initial(four, six), records[..i])
        {
          assert records[..i + 1][..i] == records[..i];
          RestoreRecord(records[i].0, records[i].1);
          i := i + 1;
        }
        assert records[..i] == records;
        if inet4Net.Some? && inet4Current.Some? && inet4Current.value >= inet4Net.value.last {
          inet4Current := Some(Succ(Four, inet4Net.value.first));
        }
        if inet6Net.Some? && inet6Current.Some? && inet6Current.value >= inet6Net.value.last {
          inet6Current := Some(Succ(Six, inet6Net.value.first));
        }
      }
    }

    /** Nothing can be built when neither range is configured. */
    static method New(four: Option<Net>, six: Option<Net>, persistent: bool, records: seq<Record>)
      returns (r: FakeIpStore?)
      ensures r == null <==> four.None? && six.None?
      ensures r != null ==>
                fresh(r) && r.View() == if persistent then Restored(four, six, records) else Initial(four, six)
    {
      if four.None? && six.None? {
        return null;
      }
      r := new FakeIpStore(four, six, persistent, records);
    }

    method RestoreRecord(ip: IpAddr, domain: Domain)
      modifies this`inet4Current, this`inet6Current, this`addrToDomain, this`domainToV4, this`domainToV6
      ensures View() == RestoreOne(old(View()), ip, domain)
    {
      match ip.family
      case Four =>
        if InRange(inet4Net, ip.n) {
          addrToDomain := addrToDomain[ip := domain];
          domainToV4 := domainToV4[domain := ip.n];
          if inet4Current.Some? && ip.n >= inet4Current.value {
            inet4Current := Some(Succ(Four, ip.n));
          }
        }
      case Six =>
        if InRange(inet6Net, ip.n) {
          addrToDomain := addrToDomain[ip := domain];
          domainToV6 := domainToV6[domain := ip.n];
          if inet6Current.Some? && ip.n >= inet6Current.value {
            inet6Current := Some(Succ(Six, ip.n));
          }
        }
    }

    method AllocateV4(domain: Domain, now: nat) returns (r: Option<nat>)
      modifies this
      ensures View() == Allocate(old(View()), Four, domain)
      ensures r == AddressOf(View(), Four, domain)
      ensures queued == old(queued) + if persistent then Logged(old(View()), Request(Four, domain, now)) else []
    {
      if domain in domainToV4 {
        var existing := domainToV4[domain];
        if persistent {
          queued := queued + [TouchFakeip(IpAddr(Four, existing), now)];
        }
        return Some(existing);
      }
      if inet4Net.None? || inet4Current.None? {
        return None;
      }
      var start, end := inet4Net.value.first, inet4Net.value.last;
      var current := inet4Current.value;
      var next := if Succ(Four, current) >= end then Succ(Four, start) else Succ(Four, current);
      inet4Current := Some(next);
      if IpAddr(Four, next) in addrToDomain {
        domainToV4 := domainToV4 - {addrToDomain[IpAddr(Four, next)]};
        addrToDomain := addrToDomain - {IpAddr(Four, next)};
      }
      addrToDomain := addrToDomain[IpAddr(Four, next) := domain];
      domainToV4 := domainToV4[domain := next];
      if persistent {
        queued := queued + [StoreFakeip(IpAddr(Four, next), domain, now)];
      }
      assert addrToDomain == old(addrToDomain)[IpAddr(Four, next) := domain];
      r := Some(next);
    }

    method AllocateV6(domain: Domain, now: nat) returns (r: Option<nat>)
      modifies this
      ensures View() == Allocate(old(View()), Six, domain)
      ensures r == AddressOf(View(), Six, domain)
      ensures queued == old(queued) + if persistent then Logged(old(View()), Request(Six, domain, now)) else []
    {
      if domain in domainToV6 {
        var existing := domainToV6[domain];
        if persistent {
          queued := queued + [TouchFakeip(IpAddr(Six, existing), now)];
        }
        return Some(existing);
      }
      if inet6Net.None? || inet6Current.None? {
        return None;
      }
      var start, end := inet6Net.value.first, inet6Net.value.last;
      var current := inet6Current.value;
      var next := if Succ(Six, current) >= end then Succ(Six, start) else Succ(Six, current);
      inet6Current := Some(next);
      if IpAddr(Six, next) in addrToDomain {
        domainToV6 := domainToV6 - {addrToDomain[IpAddr(Six, next)]};
        addrToDomain := addrToDomain - {IpAddr(Six, next)};
      }
      addrToDomain := addrToDomain[IpAddr(Six, next) := domain];
      domainToV6 := domainToV6[domain := next];
      if persistent {
        queued := queued + [StoreFakeip(IpAddr(Six, next), domain, now)];
      }
      assert addrToDomain == old(addrToDomain)[IpAddr(Six, next) := domain];
      r := Some(next);
    }
  }
}
