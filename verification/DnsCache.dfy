/** The two-tier DNS response cache: a bounded map in memory in front of a table on disk that is
    written through a queue.  Both tiers use one clock that counts whole seconds. */
module DnsCache {
  import opened Bytes

  type Second = nat

  /** The type of a question: sixteen bits. */
  type QType = n: nat | n < 0x1_0000

  datatype CacheKey = CacheKey(transport: Data, qname: Data, qtype: QType)

  function LowerByte(b: Byte): Byte { if 65 <= b <= 90 then b + 32 else b }

  /** `to_ascii_lowercase` on the bytes of a string. */
  function Lower(s: Data): (r: Data)
    ensures |r| == |s|
  {
    seq(|s|, i requires 0 <= i < |s| => LowerByte(s[i]))
  }

  lemma LowerTwice(s: Data)
    ensures Lower(Lower(s)) == Lower(s)
  {
  }

  function KeyOf(transport: Data, qname: Data, qtype: QType): CacheKey {
    CacheKey(transport, Lower(qname), qtype)
  }

  /** The same byte, or the two cases of one of the 26 letters. */
  predicate SameLetter(a: Byte, b: Byte) {
    a == b || (65 <= a <= 90 && b == a + 32) || (65 <= b <= 90 && a == b + 32)
  }

  predicate SameUpToCase(a: Data, b: Data) { |a| == |b| && forall i :: 0 <= i < |a| ==> SameLetter(a[i], b[i]) }

  lemma LowerForgetsCase(a: Data, b: Data)
    ensures Lower(a) == Lower(b) <==> SameUpToCase(a, b)
  {
    if Lower(a) == Lower(b) {
      forall i | 0 <= i < |a| ensures SameLetter(a[i], b[i]) {
        assert Lower(a)[i] == Lower(b)[i];
      }
    }
  }

  /** Questions share an entry exactly when they go to one server and ask for one name, up to case, and one type. */
  lemma KeysIgnoreCase(t: Data, q: Data, y: QType, t': Data, q': Data, y': QType)
    ensures KeyOf(t, q, y) == KeyOf(t', q', y') <==> t == t' && SameUpToCase(q, q') && y == y'
  {
    LowerForgetsCase(q, q');
  }

  // ----- keys on disk -----

  /** Length of the transport cut to 16 bits, transport, name, a zero byte, type. */
  function DiskKey(k: CacheKey): Data { PutU16(|k.transport|) + k.transport + k.qname + [0] + PutU16(k.qtype) }

  /** `encode_dns_key`: the name is made lower-case first. */
  function EncodeDnsKey(transport: Data, qname: Data, qtype: QType): Data { DiskKey(KeyOf(transport, qname, qtype)) }

  /** Transport and name run together the same way, the lengths of the transports agree in their low 16 bits. */
  predicate Alike(a: CacheKey, b: CacheKey) {
    && |a.transport| % 0x1_0000 == |b.transport| % 0x1_0000
    && a.transport + a.qname == b.transport + b.qname && a.qtype == b.qtype
  }

  lemma PutU16Unique(a: nat, b: nat)
    ensures PutU16(a) == PutU16(b) <==> a % 0x1_0000 == b % 0x1_0000
  {
    var s, t := PutU16(a), PutU16(b);
    PutU16Value(a);
    PutU16Value(b);
    OneWayToSplit(s[0], s[1], t[0], t[1]);
    assert s == [s[0], s[1]] && t == [t[0], t[1]];
  }

  /** Which keys share a row on disk, whatever their length. */
  lemma DiskKeysCollideExactlyWhenAlike(a: CacheKey, b: CacheKey)
    ensures DiskKey(a) == DiskKey(b) <==> Alike(a, b)
  {
    var l, l', n, n' := PutU16(|a.transport|), PutU16(|b.transport|), PutU16(a.qtype), PutU16(b.qtype);
    PutU16Unique(|a.transport|, |b.transport|);
    PutU16Unique(a.qtype, b.qtype);
    SameParts(l, a.transport, a.qname, [0], n, l', b.transport, b.qname, n');
  }

  /** Concatenations whose outer parts have known length are equal exactly when the parts are. */
  lemma SameParts(a: Data, b: Data, c: Data, z: Data, d: Data, a': Data, b': Data, c': Data, d': Data)
    requires |a| == |a'| == |d| == |d'| == 2
    ensures a + b + c + z + d == a' + b' + c' + z + d' <==> a == a' && b + c == b' + c' && d == d'
  {
    var s, s' := a + b + c + z + d, a' + b' + c' + z + d';
    assert s == a + (b + c) + z + d && s' == a' + (b' + c') + z + d';
    assert a == s[..2] && a' == s'[..2];
    assert d == s[|s| - 2..] && d' == s'[|s'| - 2..];
    assert b + c == s[2..|s| - 2 - |z|] && b' + c' == s'[2..|s'| - 2 - |z|];
  }

  /** A shared row is a collision exactly when the transports differ in length. */
  lemma AlikeIsEqualAtEqualLength(a: CacheKey, b: CacheKey)
    requires Alike(a, b)
    ensures a == b <==> |a.transport| == |b.transport|
  {
    if |a.transport| == |b.transport| {
      var s, n := a.transport + a.qname, |a.transport|;
      assert a.transport == s[..n] == b.transport && a.qname == s[n..] == b.qname;
    }
  }

  predicate Short(k: CacheKey) { |k.transport| < 0x1_0000 }

  /** For transports that fit the length field two disk keys collide exactly when the memory keys are equal. */
  lemma DiskKeysCollideExactlyWhenEqual(a: CacheKey, b: CacheKey)
    requires Short(a) && Short(b)
    ensures DiskKey(a) == DiskKey(b) <==> a == b
  {
    DiskKeysCollideExactlyWhenAlike(a, b);
    ShortAreAlikeOnlyWhenEqual(a, b);
  }

  lemma ShortAreAlikeOnlyWhenEqual(a: CacheKey, b: CacheKey)
    requires Short(a) && Short(b)
    ensures Alike(a, b) <==> a == b
  {
    RemainderOfShort(|a.transport|);
    RemainderOfShort(|b.transport|);
    if Alike(a, b) {
      AlikeIsEqualAtEqualLength(a, b);
    }
  }

  lemma RemainderOfShort(n: nat)
    requires n < 0x1_0000
    ensures n % 0x1_0000 == n
  {
  }

  /** A transport whose length is a multiple of 65536 loses its length: with lower-case bytes its key is that
      of an empty transport and a longer name, though the memory keys differ. */
  lemma LongTransportsCollide(t: Data, q: Data, y: QType)
    requires t != [] && |t| % 0x1_0000 == 0 && Lower(t) == t
    ensures EncodeDnsKey(t, q, y) == EncodeDnsKey([], t + q, y)
    ensures KeyOf(t, q, y) != KeyOf([], t + q, y)
  {
    assert Lower(t + q) == t + Lower(q);
    assert [] + (t + Lower(q)) == t + Lower(q);
    DiskKeysCollideExactlyWhenAlike(KeyOf(t, q, y), KeyOf([], t + q, y));
  }

  // ----- where a response comes from -----

  datatype CacheEntry = CacheEntry(resp: Data, expires: Second)

  datatype SaveDns = SaveDns(key: Data, expireAt: Second, raw: Data)

  datatype CacheResult = Hit(resp: Data) | Stale(resp: Data) | Miss

  function Clamp(ttl: nat, cap: nat): nat {
    var low := if ttl <= cap then ttl else cap;
    if low >= 1 then low else 1
  }

  /** A call of `set`: what was stored under which key, when, and the lifetime it was given. */
  datatype SetCall = SetCall(key: CacheKey, resp: Data, ttl: nat, time: Second)

  /** The second at which a stored value stops being fresh. */
  function Expiry(c: SetCall, cap: nat): Second { c.time + Clamp(c.ttl, cap) }

  /** Some earlier `set` under a key that shares its row with this one stored these bytes with a lifetime that
      ends at `expires` or later. */
  ghost predicate Backed(calls: seq<SetCall>, cap: nat, key: CacheKey, resp: Data, expires: Second) {
    exists c :: c in calls && Alike(c.key, key) && c.resp == resp && expires <= Expiry(c, cap)
  }

  /** The stored value is fresh: for a second in any case, and otherwise below its own lifetime and below the cap. */
  predicate Fresh(c: SetCall, cap: nat, now: int) { now < c.time + 1 || (now < c.time + c.ttl && now < c.time + cap) }

  lemma FreshIsBeforeExpiry(c: SetCall, cap: nat, now: int)
    ensures Fresh(c, cap, now) <==> now < Expiry(c, cap)
  {
  }

  predicate AllShort(calls: seq<SetCall>) { forall i :: 0 <= i < |calls| ==> Short(calls[i].key) }

  /** Some earlier `set` wrote this row. */
  ghost predicate OnDisk(calls: seq<SetCall>, cap: nat, key: Data, raw: Data, expireAt: Second) {
    exists c :: c in calls && DiskKey(c.key) == key && c.resp == raw && expireAt == Expiry(c, cap)
  }

  ghost predicate AllBacked(calls: seq<SetCall>, cap: nat, memory: map<CacheKey, CacheEntry>) {
    forall k :: k in memory ==> Backed(calls, cap, k, memory[k].resp, memory[k].expires)
  }

  ghost predicate AllQueued(calls: seq<SetCall>, cap: nat, ops: seq<SaveDns>) {
    forall i :: 0 <= i < |ops| ==> OnDisk(calls, cap, ops[i].key, ops[i].raw, ops[i].expireAt)
  }

  ghost predicate AllOnDisk(calls: seq<SetCall>, cap: nat, disk: map<Data, (Second, Data)>) {
    forall d :: d in disk ==> OnDisk(calls, cap, d, disk[d].1, disk[d].0)
  }

  /** A further call of `set` takes no backing away, and backs what it stores. */
  lemma MoreCalls(
      calls: seq<SetCall>, cap: nat, memory: map<CacheKey, CacheEntry>, ops: seq<SaveDns>,
      disk: map<Data, (Second, Data)>, c: SetCall)
    requires AllBacked(calls, cap, memory) && AllQueued(calls, cap, ops) && AllOnDisk(calls, cap, disk)
    ensures AllBacked(calls + [c], cap, memory) && AllQueued(calls + [c], cap, ops) && AllOnDisk(calls + [c], cap, disk)
    ensures Backed(calls + [c], cap, c.key, c.resp, Expiry(c, cap))
    ensures OnDisk(calls + [c], cap, DiskKey(c.key), c.resp, Expiry(c, cap))
  {
    var more := calls + [c];
    assert c in more;
    forall k | k in memory ensures Backed(more, cap, k, memory[k].resp, memory[k].expires) {
      assert Backed(calls, cap, k, memory[k].resp, memory[k].expires);
    }
    forall i | 0 <= i < |ops| ensures OnDisk(more, cap, ops[i].key, ops[i].raw, ops[i].expireAt) {
      assert OnDisk(calls, cap, ops[i].key, ops[i].raw, ops[i].expireAt);
    }
    forall d | d in disk ensures OnDisk(more, cap, d, disk[d].1, disk[d].0) {
      assert OnDisk(calls, cap, d, disk[d].1, disk[d].0);
    }
  }

  lemma RowIsBacked(calls: seq<SetCall>, cap: nat, disk: map<Data, (Second, Data)>, key: CacheKey)
    requires AllOnDisk(calls, cap, disk) && DiskKey(key) in disk
    ensures var row := disk[DiskKey(key)];
      forall e: nat :: e <= row.0 ==> Backed(calls, cap, key, row.1, e)
  {
    var d := DiskKey(key);
    assert OnDisk(calls, cap, d, disk[d].1, disk[d].0);
    var c :| c in calls && DiskKey(c.key) == d && c.resp == disk[d].1 && disk[d].0 == Expiry(c, cap);
    DiskKeysCollideExactlyWhenAlike(c.key, key);
  }

  // ----- the cache as a value -----

  datatype Config = Config(ttlCap: nat, optimisticTtl: Option<nat>, persistent: bool)

  /** Memory, the operations queued for the writer task, and the table it writes. */
  datatype Tiers = Tiers(memory: map<CacheKey, CacheEntry>, queued: seq<SaveDns>, disk: map<Data, (Second, Data)>)

  const EMPTY := Tiers(map[], [], map[])

  /** What the two tiers say together: memory decides if it holds the key within its window, disk otherwise. */
  function Verdict(mem: Option<CacheEntry>, row: Option<(Second, Data)>, window: Option<nat>, now: Second): CacheResult
  {
    if mem.Some? && now < mem.value.expires then Hit(mem.value.resp)
    else if mem.Some? && window.Some? && now < mem.value.expires + window.value then Stale(mem.value.resp)
    else if row.None? then Miss
    else if row.value.0 > now then Hit(row.value.1)
    else if window.Some? && now - row.value.0 < window.value then Stale(row.value.1)
    else Miss
  }

  function Find<K, V>(m: map<K, V>, k: K): Option<V> { if k in m then Some(m[k]) else None }

  function RowFor(cfg: Config, s: Tiers, key: CacheKey): Option<(Second, Data)> {
    if cfg.persistent then Find(s.disk, DiskKey(key)) else None
  }

  function Answer(cfg: Config, s: Tiers, key: CacheKey, now: Second): CacheResult {
    Verdict(Find(s.memory, key), RowFor(cfg, s, key), cfg.optimisticTtl, now)
  }

  /** Memory answers for the key by itself. */
  predicate FromMemory(cfg: Config, s: Tiers, key: CacheKey, now: Second) {
    key in s.memory &&
    var expires := s.memory[key].expires;
    now < expires || (cfg.optimisticTtl.Some? && now < expires + cfg.optimisticTtl.value)
  }

  /** The row is fresh, so that it goes back into memory. */
  predicate Reloads(cfg: Config, s: Tiers, key: CacheKey, now: Second) {
    !FromMemory(cfg, s, key, now) && RowFor(cfg, s, key).Some? && RowFor(cfg, s, key).value.0 > now
  }

  /** The memory tier after an insertion; the dropped entry is the `lru` crate's choice. */
  function Inserted(
      memory: map<CacheKey, CacheEntry>, key: CacheKey, entry: CacheEntry, victim: Option<CacheKey>)
    : map<CacheKey, CacheEntry>
  {
    (if victim.Some? then memory - {victim.value} else memory)[key := entry]
  }

  function AfterGet(cfg: Config, s: Tiers, key: CacheKey, now: Second, victim: Option<CacheKey>): Tiers {
    if FromMemory(cfg, s, key, now) then s
    else if Reloads(cfg, s, key, now) then
      var row := RowFor(cfg, s, key).value;
      s.(memory := Inserted(s.memory - {key}, key, CacheEntry(row.1, now + Min(row.0 - now, cfg.ttlCap)), victim))
    else s.(memory := s.memory - {key})
  }

  function OpOf(cfg: Config, c: SetCall): SaveDns { SaveDns(DiskKey(c.key), Expiry(c, cfg.ttlCap), c.resp) }

  function AfterSet(cfg: Config, s: Tiers, c: SetCall, victim: Option<CacheKey>): Tiers {
    s.(memory := Inserted(s.memory, c.key, CacheEntry(c.resp, Expiry(c, cfg.ttlCap)), victim),
       queued := if cfg.persistent then s.queued + [OpOf(cfg, c)] else s.queued)
  }

  /** The writer task applies the oldest queued operation. */
  function AfterWrite(s: Tiers): Tiers {
    if s.queued == [] then s else
      var op := s.queued[0];
      s.(queued := s.queued[1..], disk := s.disk[op.key := (op.expireAt, op.raw)])
  }

  function AfterPurge(s: Tiers, now: Second): Tiers {
    s.(disk := map d | d in s.disk && s.disk[d].0 > now :: s.disk[d])
  }

  // ----- which response is the latest -----

  /** The last response set under a key. */
  function LastFor(calls: seq<SetCall>, key: CacheKey): Option<Data> {
    if calls == [] then None else
      var last := calls[|calls| - 1];
      if last.key == key then Some(last.resp) else LastFor(calls[..|calls| - 1], key)
  }

  /** The last response set under any key with this row. */
  function LastRow(calls: seq<SetCall>, d: Data): Option<Data> {
    if calls == [] then None else
      var last := calls[|calls| - 1];
      if DiskKey(last.key) == d then Some(last.resp) else LastRow(calls[..|calls| - 1], d)
  }

  /** The last response still waiting to be written to a row. */
  function LastQueued(ops: seq<SaveDns>, d: Data): Option<Data> {
    if ops == [] then None else
      var last := ops[|ops| - 1];
      if last.key == d then Some(last.raw) else LastQueued(ops[..|ops| - 1], d)
  }

  lemma {:induction false} LastRowIsLastFor(calls: seq<SetCall>, key: CacheKey)
    requires AllShort(calls) && Short(key)
    ensures LastRow(calls, DiskKey(key)) == LastFor(calls, key)
  {
    if calls != [] {
      DiskKeysCollideExactlyWhenEqual(calls[|calls| - 1].key, key);
      LastRowIsLastFor(calls[..|calls| - 1], key);
    }
  }

  lemma {:induction false} WithoutFirst(ops: seq<SaveDns>, d: Data)
    requires ops != []
    ensures LastQueued(ops, d) ==
            if LastQueued(ops[1..], d).Some? then LastQueued(ops[1..], d)
            else if ops[0].key == d then Some(ops[0].raw) else None
  {
    if |ops| > 1 {
      WithoutFirst(ops[..|ops| - 1], d);
      assert ops[1..][..|ops| - 2] == ops[..|ops| - 1][1..];
    }
  }

  // ----- runs -----

  datatype Event =
    | Setting(call: SetCall, victim: Option<CacheKey>)
    | Getting(key: CacheKey, now: Second, victim: Option<CacheKey>)
    | Writing
    | Purging(now: Second)
    | Restarting

  function Next(cfg: Config, s: Tiers, e: Event): Tiers {
    match e
    case Setting(c, victim) => AfterSet(cfg, s, c, victim)
    case Getting(key, now, victim) => AfterGet(cfg, s, key, now, victim)
    case Writing => AfterWrite(s)
    case Purging(now) => AfterPurge(s, now)
    case Restarting => Tiers(map[], [], s.disk)
  }

  /** What an observer of the run keeps in mind: the calls of `set`; the keys whose entry was reloaded from a row
      that another response was queued for or lost to; and the responses that were lost to their rows because a
      restart came before the write. */
  datatype Past = Past(calls: seq<SetCall>, behind: set<CacheKey>, lost: map<Data, Data>)

  /** Another response than the row's is queued for it or was lost to it. */
  predicate Outdated(s: Tiers, lost: map<Data, Data>, d: Data)
    requires d in s.disk
  {
    var queued := LastQueued(s.queued, d);
    if queued.Some? then queued.value != s.disk[d].1 else d in lost && lost[d] != s.disk[d].1
  }

  function Lose(lost: map<Data, Data>, ops: seq<SaveDns>): map<Data, Data> {
    if ops == [] then lost else
      var last := ops[|ops| - 1];
      Lose(lost, ops[..|ops| - 1])[last.key := last.raw]
  }

  function Note(cfg: Config, s: Tiers, p: Past, e: Event): Past {
    match e
    case Setting(c, _) =>
      Past(p.calls + [c], p.behind - {c.key}, p.lost - {DiskKey(c.key)})
    case Getting(key, now, _) =>
      if FromMemory(cfg, s, key, now) then p
      else if Reloads(cfg, s, key, now) && Outdated(s, p.lost, DiskKey(key)) then p.(behind := p.behind + {key})
      else p.(behind := p.behind - {key})
    case Restarting => p.(behind := {}, lost := Lose(p.lost, s.queued))
    case _ => p
  }

  /** Cache and observer after a run from the first start on. */
  function After(cfg: Config, es: seq<Event>): (Tiers, Past) {
    if es == [] then (EMPTY, Past([], {}, map[])) else
      var (s, p) := After(cfg, es[..|es| - 1]);
      (Next(cfg, s, es[|es| - 1]), Note(cfg, s, p, es[|es| - 1]))
  }

  /** Nothing is held anywhere that was not set, nor for longer than it was set for. */
  ghost predicate Sourced(cfg: Config, s: Tiers, p: Past) {
    && AllBacked(p.calls, cfg.ttlCap, s.memory)
    && AllQueued(p.calls, cfg.ttlCap, s.queued)
    && AllOnDisk(p.calls, cfg.ttlCap, s.disk)
  }

  /** A row's last response is the last one queued for it; or the one lost to it; or the one in it. */
  ghost predicate RowKnown(s: Tiers, p: Past, d: Data) {
    var queued, last := LastQueued(s.queued, d), LastRow(p.calls, d);
    if queued.Some? then queued == last && d !in p.lost
    else if d in p.lost then last == Some(p.lost[d])
    else d in s.disk ==> last == Some(s.disk[d].1)
  }

  ghost predicate RowsKnown(s: Tiers, p: Past) { forall d :: RowKnown(s, p, d) }

  /** An entry is the last response set under its key unless it is known to be behind. */
  ghost predicate EntriesKnown(memory: map<CacheKey, CacheEntry>, p: Past) {
    AllShort(p.calls) ==>
      forall k :: k in memory && Short(k) ==> (k in p.behind <==> LastFor(p.calls, k) != Some(memory[k].resp))
  }

  ghost predicate Valid(cfg: Config, s: Tiers, p: Past) {
    Sourced(cfg, s, p) && RowsKnown(s, p) && EntriesKnown(s.memory, p)
  }

  lemma GetIsSourced(cfg: Config, s: Tiers, p: Past, key: CacheKey, now: Second, victim: Option<CacheKey>)
    requires Sourced(cfg, s, p)
    ensures AllBacked(p.calls, cfg.ttlCap, AfterGet(cfg, s, key, now, victim).memory)
  {
    if Reloads(cfg, s, key, now) {
      RowIsBacked(p.calls, cfg.ttlCap, s.disk, key);
    }
  }

  lemma WriteIsSourced(cfg: Config, s: Tiers, p: Past)
    requires Sourced(cfg, s, p)
    ensures Sourced(cfg, AfterWrite(s), p)
  {
  }

  lemma SetIsSourced(cfg: Config, s: Tiers, p: Past, c: SetCall, victim: Option<CacheKey>)
    requires Sourced(cfg, s, p)
    ensures Sourced(cfg, AfterSet(cfg, s, c, victim), p.(calls := p.calls + [c]))
  {
    MoreCalls(p.calls, cfg.ttlCap, s.memory, s.queued, s.disk, c);
  }

  lemma NextIsSourced(cfg: Config, s: Tiers, p: Past, e: Event)
    requires Sourced(cfg, s, p)
    ensures Sourced(cfg, Next(cfg, s, e), Note(cfg, s, p, e))
  {
    match e
    case Setting(c, victim) => SetIsSourced(cfg, s, p, c, victim);
    case Getting(key, now, victim) => GetIsSourced(cfg, s, p, key, now, victim);
    case Writing => WriteIsSourced(cfg, s, p);
    case Purging(_) =>
    case Restarting =>
  }

  lemma {:induction false} LoseKnows(lost: map<Data, Data>, ops: seq<SaveDns>, d: Data)
    ensures d in Lose(lost, ops) <==> d in lost || LastQueued(ops, d).Some?
    ensures LastQueued(ops, d).Some? ==> Lose(lost, ops)[d] == LastQueued(ops, d).value
    ensures LastQueued(ops, d).None? && d in lost ==> Lose(lost, ops)[d] == lost[d]
  {
    if ops != [] {
      LoseKnows(lost, ops[..|ops| - 1], d);
    }
  }

  lemma SetKnowsRow(cfg: Config, s: Tiers, p: Past, c: SetCall, victim: Option<CacheKey>, d: Data)
    requires RowKnown(s, p, d) && cfg.persistent
    ensures RowKnown(AfterSet(cfg, s, c, victim), Note(cfg, s, p, Setting(c, victim)), d)
  {
    var ops, op := s.queued, OpOf(cfg, c);
    assert (p.calls + [c])[..|p.calls|] == p.calls && (ops + [op])[..|ops|] == ops;
  }

  lemma NextKnowsRow(cfg: Config, s: Tiers, p: Past, e: Event, d: Data)
    requires RowKnown(s, p, d) && cfg.persistent
    ensures RowKnown(Next(cfg, s, e), Note(cfg, s, p, e), d)
  {
    match e
    case Setting(c, victim) => SetKnowsRow(cfg, s, p, c, victim, d);
    case Getting(_, _, _) =>
    case Writing => if s.queued != [] { WithoutFirst(s.queued, d); }
    case Purging(_) =>
    case Restarting => LoseKnows(p.lost, s.queued, d);
  }

  /** Without a cache file there are no rows. */
  ghost predicate RowsNeeded(cfg: Config, s: Tiers, p: Past) {
    cfg.persistent || (s.queued == [] && s.disk == map[] && p.lost == map[])
  }

  lemma NextKnowsRows(cfg: Config, s: Tiers, p: Past, e: Event)
    requires RowsKnown(s, p) && RowsNeeded(cfg, s, p)
    ensures RowsKnown(Next(cfg, s, e), Note(cfg, s, p, e)) && RowsNeeded(cfg, Next(cfg, s, e), Note(cfg, s, p, e))
  {
    forall d ensures RowKnown(Next(cfg, s, e), Note(cfg, s, p, e), d) {
      if cfg.persistent {
        NextKnowsRow(cfg, s, p, e, d);
      }
    }
  }

  /** A row is the last response set under its key exactly when it is not outdated. */
  lemma {:induction false} RowIsLatestExactlyWhen(s: Tiers, p: Past, key: CacheKey)
    requires RowKnown(s, p, DiskKey(key)) && DiskKey(key) in s.disk && AllShort(p.calls) && Short(key)
    ensures LastFor(p.calls, key) == Some(s.disk[DiskKey(key)].1) <==> !Outdated(s, p.lost, DiskKey(key))
  {
    LastRowIsLastFor(p.calls, key);
  }

  lemma SetKnowsEntries(cfg: Config, s: Tiers, p: Past, c: SetCall, victim: Option<CacheKey>)
    requires EntriesKnown(s.memory, p)
    ensures EntriesKnown(AfterSet(cfg, s, c, victim).memory, Note(cfg, s, p, Setting(c, victim)))
  {
    var calls := p.calls + [c];
    assert calls[..|p.calls|] == p.calls && calls[|p.calls|] == c;
    if AllShort(calls) {
      assert forall i :: 0 <= i < |p.calls| ==> calls[i] == p.calls[i];
    }
  }

  lemma GetKnowsEntries(cfg: Config, s: Tiers, p: Past, key: CacheKey, now: Second, victim: Option<CacheKey>)
    requires EntriesKnown(s.memory, p) && RowsKnown(s, p)
    ensures EntriesKnown(AfterGet(cfg, s, key, now, victim).memory, Note(cfg, s, p, Getting(key, now, victim)))
  {
    if Reloads(cfg, s, key, now) && AllShort(p.calls) && Short(key) {
      assert RowKnown(s, p, DiskKey(key));
      RowIsLatestExactlyWhen(s, p, key);
    }
  }

  lemma NextKnowsEntries(cfg: Config, s: Tiers, p: Past, e: Event)
    requires EntriesKnown(s.memory, p) && RowsKnown(s, p)
    ensures EntriesKnown(Next(cfg, s, e).memory, Note(cfg, s, p, e))
  {
    match e
    case Setting(c, victim) => SetKnowsEntries(cfg, s, p, c, victim);
    case Getting(key, now, victim) => GetKnowsEntries(cfg, s, p, key, now, victim);
    case Writing =>
    case Purging(_) =>
    case Restarting =>
  }

  lemma {:induction false} RunKeepsValid(cfg: Config, es: seq<Event>)
    ensures var (s, p) := After(cfg, es); Valid(cfg, s, p) && RowsNeeded(cfg, s, p)
  {
    if es != [] {
      var front, e := es[..|es| - 1], es[|es| - 1];
      RunKeepsValid(cfg, front);
      var (s, p) := After(cfg, front);
      NextIsSourced(cfg, s, p, e);
      NextKnowsRows(cfg, s, p, e);
      NextKnowsEntries(cfg, s, p, e);
    }
  }

  // ----- how long a response is served -----

  /** The run set these bytes, fresh at `now`, under a key that shares its row with this one: under this very key
      unless a transport is too long for the length field. */
  ghost predicate WasSet(es: seq<Event>, cap: nat, key: CacheKey, resp: Data, now: int) {
    exists i :: 0 <= i < |es| && es[i].Setting? && SetFor(es[i].call, cap, key, resp, now)
  }

  predicate SetFor(c: SetCall, cap: nat, key: CacheKey, resp: Data, now: int) {
    Alike(c.key, key) && (Short(c.key) && Short(key) ==> c.key == key) && c.resp == resp && Fresh(c, cap, now)
  }

  lemma {:induction false} CallsWereMade(cfg: Config, es: seq<Event>, c: SetCall)
    requires c in After(cfg, es).1.calls
    ensures exists i :: 0 <= i < |es| && es[i].Setting? && es[i].call == c
  {
    var front, e := es[..|es| - 1], es[|es| - 1];
    if !(e.Setting? && e.call == c) {
      CallsWereMade(cfg, front, c);
      var i :| 0 <= i < |front| && front[i].Setting? && front[i].call == c;
      assert es[i] == front[i];
    }
  }

  lemma {:induction false} BackedWasSet(
      cfg: Config, es: seq<Event>, key: CacheKey, resp: Data, expires: Second, now: int)
    requires Backed(After(cfg, es).1.calls, cfg.ttlCap, key, resp, expires) && now < expires
    ensures WasSet(es, cfg.ttlCap, key, resp, now)
  {
    var calls, cap := After(cfg, es).1.calls, cfg.ttlCap;
    var c :| c in calls && Alike(c.key, key) && c.resp == resp && expires <= Expiry(c, cap);
    FreshIsBeforeExpiry(c, cap, now);
    if Short(c.key) && Short(key) {
      ShortAreAlikeOnlyWhenEqual(c.key, key);
    }
    CallsWereMade(cfg, es, c);
    var i :| 0 <= i < |es| && es[i].Setting? && es[i].call == c;
    assert SetFor(es[i].call, cap, key, resp, now);
  }

  function Window(cfg: Config): nat { if cfg.optimisticTtl.Some? then cfg.optimisticTtl.value else 0 }

  /** In every run, restarts included, a hit was set by a call whose lifetime, and the cap counted from that call, are
      not over, and a stale answer by one for which that was so a window earlier. */
  lemma {:induction false} AnswersAreYoung(cfg: Config, es: seq<Event>, key: CacheKey, now: Second)
    ensures var r := Answer(cfg, After(cfg, es).0, key, now);
      && (r.Hit? ==> WasSet(es, cfg.ttlCap, key, r.resp, now))
      && (r.Stale? ==> cfg.optimisticTtl.Some? && WasSet(es, cfg.ttlCap, key, r.resp, now - Window(cfg)))
  {
    RunKeepsValid(cfg, es);
    var (s, p) := After(cfg, es);
    var r := Answer(cfg, s, key, now);
    if !r.Miss? {
      var since := if r.Stale? then now - Window(cfg) else now;
      if FromMemory(cfg, s, key, now) {
        BackedWasSet(cfg, es, key, r.resp, s.memory[key].expires, since);
      } else {
        RowIsBacked(p.calls, cfg.ttlCap, s.disk, key);
        BackedWasSet(cfg, es, key, r.resp, s.disk[DiskKey(key)].0, since);
      }
    }
  }

  /** The event leaves the entry of call `c` in memory: it neither sets the key again nor drops it, by choice of
      the cache, by a restart, or because the key is asked for when the entry is past use. */
  predicate Spares(cfg: Config, e: Event, c: SetCall) {
    match e
    case Setting(other, victim) => other.key != c.key && victim != Some(c.key)
    case Getting(key, now, victim) =>
      if key == c.key then Fresh(c, cfg.ttlCap, now - Window(cfg)) else victim != Some(c.key)
    case Restarting => false
    case _ => true
  }

  ghost predicate SparedSince(cfg: Config, es: seq<Event>, i: nat) {
    && i < |es| && es[i].Setting?
    && forall j :: i < j < |es| ==> Spares(cfg, es[j], es[i].call)
  }

  /** Memory holds under the key of `c` what `c` set, for as long as `c` set it. */
  predicate InMemory(cfg: Config, s: Tiers, c: SetCall) {
    c.key in s.memory && s.memory[c.key] == CacheEntry(c.resp, Expiry(c, cfg.ttlCap))
  }

  lemma InMemoryGoesOn(cfg: Config, s: Tiers, e: Event, c: SetCall)
    requires InMemory(cfg, s, c) && Spares(cfg, e, c)
    ensures InMemory(cfg, Next(cfg, s, e), c)
  {
    if e.Getting? {
      FreshIsBeforeExpiry(c, cfg.ttlCap, e.now - Window(cfg));
    }
  }

  lemma {:induction false} SparedStaysInMemory(cfg: Config, es: seq<Event>, i: nat)
    requires SparedSince(cfg, es, i)
    ensures InMemory(cfg, After(cfg, es).0, es[i].call)
  {
    var n := |es| - 1;
    if i < n {
      var front := es[..n];
      assert forall j :: i < j < n ==> front[j] == es[j];
      SparedStaysInMemory(cfg, front, i);
      InMemoryGoesOn(cfg, After(cfg, front).0, es[n], es[i].call);
    }
  }

  /** Conversely, a response that was set and whose entry was spared since is the answer, a hit as long as its lifetime
      and the cap allow and a stale one for a window longer. */
  lemma {:induction false} SparedIsServed(cfg: Config, es: seq<Event>, i: nat, now: Second)
    requires SparedSince(cfg, es, i)
    ensures var c := es[i].call; var r := Answer(cfg, After(cfg, es).0, c.key, now);
      && (Fresh(c, cfg.ttlCap, now) ==> r == Hit(c.resp))
      && (!Fresh(c, cfg.ttlCap, now) && Fresh(c, cfg.ttlCap, now - Window(cfg)) ==> r == Stale(c.resp))
  {
    SparedStaysInMemory(cfg, es, i);
    FreshIsBeforeExpiry(es[i].call, cfg.ttlCap, now);
    FreshIsBeforeExpiry(es[i].call, cfg.ttlCap, now - Window(cfg));
  }

  // ----- across restarts -----

  /** The last operation for the row of `c` is its own, still in the queue. */
  ghost predicate Pending(cfg: Config, s: Tiers, c: SetCall) {
    exists k :: 0 <= k < |s.queued| && s.queued[k] == OpOf(cfg, c)
                && forall j :: k < j < |s.queued| ==> s.queued[j].key != DiskKey(c.key)
  }

  /** The row of `c` holds what `c` set, and nothing is queued for it. */
  ghost predicate Written(cfg: Config, s: Tiers, c: SetCall) {
    var d := DiskKey(c.key);
    && d in s.disk && s.disk[d] == (Expiry(c, cfg.ttlCap), c.resp)
    && forall j :: 0 <= j < |s.queued| ==> s.queued[j].key != d
  }

  /** The event neither sets the row of `c` again nor purges it, and does not come before `c` by the clock. */
  predicate SparesRow(cfg: Config, e: Event, c: SetCall) {
    match e
    case Setting(other, _) => !Alike(other.key, c.key)
    case Purging(now) => Fresh(c, cfg.ttlCap, now)
    case Getting(key, now, _) => key == c.key ==> c.time <= now
    case _ => true
  }

  lemma PendingGoesOn(cfg: Config, s: Tiers, e: Event, c: SetCall)
    requires Pending(cfg, s, c) && SparesRow(cfg, e, c) && !e.Restarting?
    ensures Pending(cfg, Next(cfg, s, e), c) || Written(cfg, Next(cfg, s, e), c)
  {
    var k :| 0 <= k < |s.queued| && s.queued[k] == OpOf(cfg, c)
             && forall j :: k < j < |s.queued| ==> s.queued[j].key != DiskKey(c.key);
    var s' := Next(cfg, s, e);
    if e.Setting? {
      DiskKeysCollideExactlyWhenAlike(e.call.key, c.key);
      assert s'.queued[k] == OpOf(cfg, c);
    } else if e.Writing? && k > 0 {
      assert s'.queued[k - 1] == OpOf(cfg, c);
    } else if !e.Writing? {
      assert s'.queued == s.queued;
    }
  }

  lemma WrittenGoesOn(cfg: Config, s: Tiers, e: Event, c: SetCall)
    requires Written(cfg, s, c) && SparesRow(cfg, e, c)
    ensures Written(cfg, Next(cfg, s, e), c)
  {
    match e
    case Setting(other, _) => DiskKeysCollideExactlyWhenAlike(other.key, c.key);
    case Purging(now) => FreshIsBeforeExpiry(c, cfg.ttlCap, now);
    case _ =>
  }

  ghost predicate RowSparedSince(cfg: Config, es: seq<Event>, i: nat) {
    && i < |es| && es[i].Setting?
    && forall j :: i < j < |es| ==> SparesRow(cfg, es[j], es[i].call)
  }

  lemma RowSparedEarlier(cfg: Config, es: seq<Event>, i: nat, n: nat)
    requires RowSparedSince(cfg, es, i) && i < n <= |es|
    ensures RowSparedSince(cfg, es[..n], i)
  {
    assert forall j :: 0 <= j < n ==> es[..n][j] == es[j];
  }

  /** Until the first restart the operation waits in the queue or has been carried out. */
  lemma {:induction false} RowGetsThrough(cfg: Config, es: seq<Event>, i: nat)
    requires cfg.persistent && RowSparedSince(cfg, es, i)
    requires forall j :: i < j < |es| ==> !es[j].Restarting?
    ensures var s := After(cfg, es).0; Pending(cfg, s, es[i].call) || Written(cfg, s, es[i].call)
  {
    var n := |es| - 1;
    var c, front := es[i].call, es[..n];
    var s := After(cfg, front).0;
    if i < n {
      RowSparedEarlier(cfg, es, i, n);
      RowGetsThrough(cfg, front, i);
      if Pending(cfg, s, c) {
        PendingGoesOn(cfg, s, es[n], c);
      } else {
        WrittenGoesOn(cfg, s, es[n], c);
      }
    } else {
      assert After(cfg, es).0.queued[|s.queued|] == OpOf(cfg, c);
    }
  }

  /** Event `i` set something, its row was left alone since, and the writer had caught up at the next restart `m`. */
  ghost predicate CarriedOver(cfg: Config, es: seq<Event>, i: nat, m: nat) {
    && i < m < |es| && es[i].Setting? && es[m].Restarting?
    && After(cfg, es[..m]).0.queued == []
    && (forall j :: i < j < m ==> !es[j].Restarting?)
    && RowSparedSince(cfg, es, i)
  }

  lemma CarriedOverEarlier(cfg: Config, es: seq<Event>, i: nat, m: nat, n: nat)
    requires CarriedOver(cfg, es, i, m) && m < n <= |es|
    ensures CarriedOver(cfg, es[..n], i, m)
  {
    RowSparedEarlier(cfg, es, i, n);
    assert es[..n][..m] == es[..m];
  }

  /** The row holds what `c` set, and memory nothing else under its key. */
  ghost predicate Carried(cfg: Config, s: Tiers, c: SetCall) {
    Written(cfg, s, c) && (c.key in s.memory ==> InMemory(cfg, s, c))
  }

  lemma CarriedGoesOn(cfg: Config, s: Tiers, e: Event, c: SetCall)
    requires Carried(cfg, s, c) && SparesRow(cfg, e, c) && cfg.ttlCap >= 1
    ensures Carried(cfg, Next(cfg, s, e), c)
  {
    WrittenGoesOn(cfg, s, e, c);
    if e.Setting? {
      assert e.call.key != c.key;
    }
  }

  lemma RestartCarries(cfg: Config, s: Tiers, c: SetCall)
    requires s.queued == [] && (Pending(cfg, s, c) || Written(cfg, s, c))
    ensures Carried(cfg, Next(cfg, s, Restarting), c)
  {
  }

  lemma {:induction false} CarriedOverIsHeld(cfg: Config, es: seq<Event>, i: nat, m: nat)
    requires cfg.persistent && cfg.ttlCap >= 1 && CarriedOver(cfg, es, i, m)
    ensures Carried(cfg, After(cfg, es).0, es[i].call)
  {
    var n := |es| - 1;
    var c, front := es[i].call, es[..n];
    var s := After(cfg, front).0;
    if m < n {
      CarriedOverEarlier(cfg, es, i, m, n);
      CarriedOverIsHeld(cfg, front, i, m);
      CarriedGoesOn(cfg, s, es[n], c);
    } else {
      RowSparedEarlier(cfg, es, i, n);
      RowGetsThrough(cfg, front, i);
      RestartCarries(cfg, s, c);
    }
  }

  /** A response whose write was carried out before the next restart is served after that and any further restart,
      whatever memory dropped, as long as its lifetime and the cap allow. */
  lemma {:induction false} CarriedOverIsServed(cfg: Config, es: seq<Event>, i: nat, m: nat, now: Second)
    requires cfg.persistent && cfg.ttlCap >= 1 && CarriedOver(cfg, es, i, m)
    ensures var c := es[i].call; var r := Answer(cfg, After(cfg, es).0, c.key, now);
      && (Fresh(c, cfg.ttlCap, now) ==> r == Hit(c.resp))
      && (!Fresh(c, cfg.ttlCap, now) && Fresh(c, cfg.ttlCap, now - Window(cfg)) ==> r == Stale(c.resp))
  {
    CarriedOverIsHeld(cfg, es, i, m);
    FreshIsBeforeExpiry(es[i].call, cfg.ttlCap, now);
    FreshIsBeforeExpiry(es[i].call, cfg.ttlCap, now - Window(cfg));
  }

  /** In every run an answer is the last response set under its key exactly when, if memory gives it, the entry is
      not one that was reloaded from an outdated row, and otherwise its row is not outdated now. */
  lemma {:induction false} LatestExactlyWhenNotBehind(cfg: Config, es: seq<Event>, key: CacheKey, now: Second)
    requires AllShort(After(cfg, es).1.calls) && Short(key) && !Answer(cfg, After(cfg, es).0, key, now).Miss?
    ensures var (s, p) := After(cfg, es);
      LastFor(p.calls, key) == Some(Answer(cfg, s, key, now).resp) <==>
      if FromMemory(cfg, s, key, now) then key !in p.behind else !Outdated(s, p.lost, DiskKey(key))
  {
    RunKeepsValid(cfg, es);
    var (s, p) := After(cfg, es);
    if !FromMemory(cfg, s, key, now) {
      assert RowKnown(s, p, DiskKey(key));
      RowIsLatestExactlyWhen(s, p, key);
    }
  }

  /** Entries come from before, or from the row of `key`, whose end they do not outlive. */
  lemma ReloadingNeverExtends(cfg: Config, s: Tiers, key: CacheKey, now: Second, victim: Option<CacheKey>, k: CacheKey)
    requires k in AfterGet(cfg, s, key, now, victim).memory
    ensures var entry := AfterGet(cfg, s, key, now, victim).memory[k];
      || (k in s.memory && entry == s.memory[k])
      || (k == key && RowFor(cfg, s, key).Some? && entry.expires <= RowFor(cfg, s, key).value.0
          && entry.resp == RowFor(cfg, s, key).value.1)
  {
  }

  /** A run that ends with an older answer although the newer response is on disk and nothing is queued: the entry
      of the newer one is dropped before it is written, and the older row is reloaded in between. */
  function OvertakenRun(key: CacheKey, other: CacheKey, older: Data, newer: Data): seq<Event> {
    [Setting(SetCall(key, older, 60, 0), None), Writing, Setting(SetCall(key, newer, 60, 1), None),
     Setting(SetCall(other, newer, 60, 1), Some(key)), Getting(key, 2, None), Writing, Writing]
  }

  lemma {:induction false} AfterMore(cfg: Config, es: seq<Event>, more: seq<Event>)
    ensures After(cfg, es + more).0 == Continued(cfg, After(cfg, es).0, more)
    decreases |more|
  {
    if more == [] {
      assert es + more == es;
    } else {
      assert es + more == (es + [more[0]]) + more[1..] && (es + [more[0]])[..|es|] == es;
      AfterMore(cfg, es + [more[0]], more[1..]);
    }
  }

  function Continued(cfg: Config, s: Tiers, es: seq<Event>): Tiers
    decreases |es|
  {
    if es == [] then s else Continued(cfg, Next(cfg, s, es[0]), es[1..])
  }

  const PLAIN := Config(100, None, true)

  lemma TwoSets(key: CacheKey, other: CacheKey, older: Data, newer: Data)
    requires key != other
    ensures var s1 := Next(PLAIN, EMPTY, Setting(SetCall(key, older, 60, 0), None));
      var s2 := Next(PLAIN, s1, Writing);
      var s3 := Next(PLAIN, s2, Setting(SetCall(key, newer, 60, 1), None));
      Next(PLAIN, s3, Setting(SetCall(other, newer, 60, 1), Some(key))) ==
      Tiers(map[other := CacheEntry(newer, 61)],
            [SaveDns(DiskKey(key), 61, newer), SaveDns(DiskKey(other), 61, newer)], map[DiskKey(key) := (60, older)])
  {
  }

  lemma ReloadAndDrain(key: CacheKey, other: CacheKey, older: Data, newer: Data)
    requires key != other && DiskKey(key) != DiskKey(other)
    ensures var d, e := DiskKey(key), DiskKey(other);
      var s4 := Tiers(map[other := CacheEntry(newer, 61)], [SaveDns(d, 61, newer), SaveDns(e, 61, newer)],
                      map[d := (60, older)]);
      var s5 := Next(PLAIN, s4, Getting(key, 2, None));
      Next(PLAIN, Next(PLAIN, s5, Writing), Writing) ==
      Tiers(map[other := CacheEntry(newer, 61), key := CacheEntry(older, 60)], [],
            map[d := (61, newer), e := (61, newer)])
  {
  }

  lemma OlderRowIsServed(key: CacheKey, other: CacheKey, older: Data, newer: Data)
    requires Short(key) && Short(other) && key != other
    ensures var s := After(PLAIN, OvertakenRun(key, other, older, newer)).0;
      && s.queued == [] && DiskKey(key) in s.disk && s.disk[DiskKey(key)].1 == newer
      && Answer(PLAIN, s, key, 3) == Hit(older)
  {
    var es := OvertakenRun(key, other, older, newer);
    DiskKeysCollideExactlyWhenEqual(key, other);
    TwoSets(key, other, older, newer);
    ReloadAndDrain(key, other, older, newer);
    AfterMore(PLAIN, [], es);
    Seven(EMPTY, es);
    assert [] + es == es;
  }

  lemma {:induction false} Seven(s: Tiers, es: seq<Event>)
    requires |es| == 7
    ensures var s3 := Next(PLAIN, Next(PLAIN, Next(PLAIN, s, es[0]), es[1]), es[2]);
      Continued(PLAIN, s, es) == Next(PLAIN, Next(PLAIN, Next(PLAIN, Next(PLAIN, s3, es[3]), es[4]), es[5]), es[6])
  {
    var s1 := Next(PLAIN, s, es[0]);
    var s2 := Next(PLAIN, s1, es[1]);
    var s3 := Next(PLAIN, s2, es[2]);
    var s4 := Next(PLAIN, s3, es[3]);
    assert es[1..][1..] == es[2..] && es[2..][1..] == es[3..] && es[3..][1..] == es[4..];
    assert es[4..][1..] == es[5..] && es[5..][1..] == es[6..] && es[6..][1..] == [];
    assert Continued(PLAIN, s, es) == Continued(PLAIN, s1, es[1..]) == Continued(PLAIN, s2, es[2..]);
    assert Continued(PLAIN, s2, es[2..]) == Continued(PLAIN, s3, es[3..]) == Continued(PLAIN, s4, es[4..]);
    var s5 := Next(PLAIN, s4, es[4]);
    var s6 := Next(PLAIN, s5, es[5]);
    assert Continued(PLAIN, s4, es[4..]) == Continued(PLAIN, s5, es[5..]) == Continued(PLAIN, s6, es[6..]);
    assert Continued(PLAIN, s6, es[6..]) == Continued(PLAIN, Next(PLAIN, s6, es[6]), []);
  }

  // ----- the cache as an object -----

  class DnsCache {
    const cfg: Config
    var memory: map<CacheKey, CacheEntry>
    var queued: seq<SaveDns>
    var disk: map<Data, (Second, Data)>

    ghost function View(): Tiers
      reads this
    {
      Tiers(memory, queued, disk)
    }

    constructor (cfg: Config)
      ensures View() == EMPTY && this.cfg == cfg
    {
      this.cfg := cfg;
      memory, queued, disk := map[], [], map[];
    }

    /** The process stops and starts again: memory and whatever was not written yet are lost. */
    method Restart()
      modifies this`memory, this`queued
      ensures View() == Next(cfg, old(View()), Restarting)
    {
      memory, queued := map[], [];
    }

    method InsertMemory(key: CacheKey, resp: Data, ttlSecs: nat, now: Second, victim: Option<CacheKey>)
      modifies this`memory
      ensures memory == Inserted(old(memory), key, CacheEntry(resp, now + ttlSecs), victim)
    {
      if victim.Some? {
        memory := memory - {victim.value};
      }
      memory := memory[key := CacheEntry(resp, now + ttlSecs)];
    }

    method Get(transport: Data, qname: Data, qtype: QType, now: Second, victim: Option<CacheKey>)
      returns (r: CacheResult)
      modifies this`memory
      ensures r == Answer(cfg, old(View()), KeyOf(transport, qname, qtype), now)
      ensures View() == Next(cfg, old(View()), Getting(KeyOf(transport, qname, qtype), now, victim))
    {
      var key := KeyOf(transport, qname, qtype);
      if key in memory {
        var entry := memory[key];
        if now < entry.expires {
          return Hit(entry.resp);
        }
        if cfg.optimisticTtl.Some? && now < entry.expires + cfg.optimisticTtl.value {
          return Stale(entry.resp);
        }
        memory := memory - {key};
      }
      assert memory == old(memory) - {key};
      if cfg.persistent {
        r := GetPersisted(transport, qname, qtype, now, victim);
      } else {
        r := Miss;
      }
    }

    /** The second half of `get`, on a key that memory no longer answers for. */
    method GetPersisted(transport: Data, qname: Data, qtype: QType, now: Second, victim: Option<CacheKey>)
      returns (r: CacheResult)
      requires cfg.persistent && KeyOf(transport, qname, qtype) !in memory
      modifies this`memory
      ensures r == Answer(cfg, old(View()), KeyOf(transport, qname, qtype), now)
      ensures View() == Next(cfg, old(View()), Getting(KeyOf(transport, qname, qtype), now, victim))
    {
      var key := KeyOf(transport, qname, qtype);
      assert memory == memory - {key};
      LowerTwice(qname);
      var diskKey := EncodeDnsKey(transport, Lower(qname), qtype);
      if diskKey !in disk {
        return Miss;
      }
      var (expireAt, raw) := disk[diskKey];
      if expireAt > now {
        var remaining := Min(expireAt - now, cfg.ttlCap);
        InsertMemory(key, raw, remaining, now, victim);
        return Hit(raw);
      }
      if cfg.optimisticTtl.Some? && now - expireAt < cfg.optimisticTtl.value {
        return Stale(raw);
      }
      r := Miss;
    }

    method Set(transport: Data, qname: Data, qtype: QType, resp: Data, ttl: nat, now: Second, victim: Option<CacheKey>)
      modifies this`memory, this`queued
      ensures View() ==
              Next(cfg, old(View()), Setting(SetCall(KeyOf(transport, qname, qtype), resp, ttl, now), victim))
    {
      var clamped := Min(ttl, cfg.ttlCap);
      if clamped < 1 {
        clamped := 1;
      }
      InsertMemory(KeyOf(transport, qname, qtype), resp, clamped, now, victim);
      if cfg.persistent {
        queued := queued + [SaveDns(EncodeDnsKey(transport, qname, qtype), now + clamped, resp)];
      }
    }

    /** One turn of the writer task. */
    method WriteOne()
      modifies this`queued, this`disk
      ensures View() == Next(cfg, old(View()), Writing)
    {
      if queued != [] {
        var op := queued[0];
        disk := disk[op.key := (op.expireAt, op.raw)];
        queued := queued[1..];
      }
    }

    /** `purge_expired_dns`: collects the expired rows, then deletes them. */
    method Purge(now: Second)
      modifies this`disk
      ensures View() == Next(cfg, old(View()), Purging(now))
    {
      var expired := set d | d in disk && disk[d].0 <= now;
      disk := disk - expired;
    }
  }
}
