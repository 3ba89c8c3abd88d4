/** Deduplication of concurrent DNS queries.

    Every incoming query runs `DnsResolver::handle` as its own task, so queries
    interleave at every await and at every lock.  A query that misses the cache
    either registers a broadcast sender under its key and becomes the leader, or
    subscribes to the sender it finds there.  The model is the set of all
    interleavings: one `Action` per atomic step of one query, the upstream server
    being an oracle that may return any bytes or fail. */
module Inflight {
  import opened Bytes
  import Cache = DnsCache

  type CacheKey = Cache.CacheKey

  datatype Query = Query(key: CacheKey, msg: Data)

  /** A broadcast channel of capacity one.  Its identity is the query that created it. */
  datatype Channel = Open | Sent(resp: Data) | Closed

  /** The inflight map with the channels its senders belong to. */
  datatype Table = Table(inflight: map<CacheKey, nat>, channels: map<nat, Channel>)

  datatype InflightResult = Leader | Waiter(channel: nat)

  // ----- the three effects on the table, as functions of the old table -----

  function Register(t: Table, key: CacheKey, q: nat): Table {
    Table(t.inflight[key := q], t.channels[q := Open])
  }

  function Unlist(t: Table, key: CacheKey): Table {
    t.(inflight := t.inflight - {key})
  }

  /** Sending delivers the bytes to every subscriber; dropping the sender without sending closes. */
  function Settle(t: Table, channel: nat, resp: Option<Data>): Table {
    t.(channels := t.channels[channel := if resp.Some? then Sent(resp.value) else Closed])
  }

  /** The mutex-guarded part of `DnsCache` that deduplicates requests. */
  class InflightTable {
    var inflight: map<CacheKey, nat>
    var channels: map<nat, Channel>

    ghost function View(): Table
      reads this
    {
      Table(inflight, channels)
    }

    constructor ()
      ensures View() == Table(map[], map[])
    {
      inflight, channels := map[], map[];
    }

    method TryLeadInflight(key: CacheKey, q: nat) returns (r: InflightResult)
      modifies this
      ensures r.Leader? <==> key !in old(inflight)
      ensures r.Leader? ==> View() == Register(old(View()), key, q)
      ensures r.Waiter? ==> View() == old(View()) && r.channel == old(inflight)[key]
    {
      if key in inflight {
        r := Waiter(inflight[key]);
      } else {
        channels := channels[q := Open];
        inflight := inflight[key := q];
        r := Leader;
      }
    }

    /** A key that is not listed is left alone; a listed one is taken out before anything is sent. */
    method CompleteInflight(key: CacheKey, resp: Option<Data>)
      modifies this
      ensures key !in old(inflight) ==> View() == old(View())
      ensures key in old(inflight) ==>
                View() == Settle(Unlist(old(View()), key), old(inflight)[key], resp)
    {
      if key in inflight {
        var tx := inflight[key];
        inflight := inflight - {key};
        if resp.Some? {
          channels := channels[tx := Sent(resp.value)];
        } else {
          channels := channels[tx := Closed];
        }
      }
    }
  }

  // ----- patch_id -----

  /** Overwrites the two transaction-id bytes when both messages have them. */
  function PatchId(resp: Data, query: Data): (r: Data)
    ensures |r| == |resp|
    ensures forall i :: 2 <= i < |resp| ==> r[i] == resp[i]
    ensures |resp| >= 2 && |query| >= 2 ==> r[0] == query[0] && r[1] == query[1]
    ensures |resp| < 2 || |query| < 2 ==> r == resp
  {
    if |resp| >= 2 && |query| >= 2 then resp[0 := query[0]][1 := query[1]] else resp
  }

  // ----- the interleaved runs of handle -----

  datatype Source = Cached | Led | Shared(leader: nat) | Retried(leader: nat)

  datatype Phase =
    | Started                                // before the cache lookup
    | Missed                                 // the lookup missed
    | Leading                                // registered, upstream query under way
    | Fetched(result: Option<Data>)          // upstream returned, cache written
    | Unlisted(result: Option<Data>)         // key taken out of the table, nothing sent yet
    | Waiting(leader: nat)                   // subscribed to the leader's channel
    | Retrying(leader: nat)                  // leader failed, own upstream query under way
    | Answered(outcome: Option<Data>, source: Source, refreshing: bool)

  /** `known` holds every response the upstream ever returned for a key, and whatever was on
      disk at the start; `stored` is the part handed to `set`; `asked` counts, per query, the
      upstream queries it made for its own answer. */
  datatype State = State(
    phases: seq<Phase>,
    table: Table,
    stored: set<(CacheKey, Data)>,
    known: set<(CacheKey, Data)>,
    asked: seq<nat>)

  datatype Action =
    | LookUp(q: nat, lookup: Cache.CacheResult)
    | TryLead(q: nat)
    | UpstreamReturns(q: nat, result: Option<Data>, cacheable: bool)
    | TakeOut(q: nat)
    | Publish(q: nat)
    | Receive(q: nat)

  ghost predicate Init(qs: seq<Query>, s: State) {
    && |s.phases| == |s.asked| == |qs|
    && (forall i :: 0 <= i < |qs| ==> s.phases[i] == Started && s.asked[i] == 0)
    && s.table == Table(map[], map[])
    && s.stored <= s.known
  }

  predicate Enabled(qs: seq<Query>, s: State, a: Action)
    requires |s.phases| == |s.asked| == |qs|
  {
    a.q < |qs| &&
    match a
    case LookUp(q, l) =>
      && s.phases[q].Started?
      && (!l.Miss? ==> (qs[q].key, l.resp) in s.stored)
    case TryLead(q) => s.phases[q].Missed?
    case UpstreamReturns(q, _, _) =>
      s.phases[q].Leading? || s.phases[q].Retrying? || (s.phases[q].Answered? && s.phases[q].refreshing)
    case TakeOut(q) => s.phases[q].Fetched?
    case Publish(q) => s.phases[q].Unlisted?
    case Receive(q) =>
      && s.phases[q].Waiting?
      && s.phases[q].leader in s.table.channels
      && !s.table.channels[s.phases[q].leader].Open?
  }

  /** What becomes of the phase of the query that acts. */
  function NextPhase(qs: seq<Query>, s: State, a: Action): Phase
    requires |s.phases| == |s.asked| == |qs| && Enabled(qs, s, a)
  {
    var q := a.q;
    var key, msg := qs[q].key, qs[q].msg;
    match a
    case LookUp(_, Hit(r)) => Answered(Some(PatchId(r, msg)), Cached, false)
    case LookUp(_, Stale(r)) => Answered(Some(PatchId(r, msg)), Cached, true)
    case LookUp(_, Miss) => Missed
    case TryLead(_) => if key in s.table.inflight then Waiting(s.table.inflight[key]) else Leading
    case UpstreamReturns(_, result, _) =>
      (match s.phases[q]
       case Leading => Fetched(result)
       case Answered(o, src, _) => Answered(o, src, false)
       case Retrying(l) => Answered(result, Retried(l), false)
       case other => other)
    case TakeOut(_) => Unlisted(s.phases[q].result)
    case Publish(_) => Answered(s.phases[q].result, Led, false)
    case Receive(_) =>
      var leader := s.phases[q].leader;
      var channel := s.table.channels[leader];
      if channel.Sent? then Answered(Some(PatchId(channel.resp, msg)), Shared(leader), false) else Retrying(leader)
  }

  function NextTable(qs: seq<Query>, s: State, a: Action): Table
    requires |s.phases| == |s.asked| == |qs| && Enabled(qs, s, a)
  {
    var key := qs[a.q].key;
    match a
    case TryLead(q) => if key in s.table.inflight then s.table else Register(s.table, key, q)
    case TakeOut(_) => Unlist(s.table, key)
    case Publish(q) => Settle(s.table, q, s.phases[q].result)
    case _ => s.table
  }

  /** The step sends the query's own question upstream. */
  predicate Asks(qs: seq<Query>, s: State, a: Action)
    requires |s.phases| == |s.asked| == |qs| && Enabled(qs, s, a)
  {
    NextPhase(qs, s, a).Leading? || (a.Receive? && NextPhase(qs, s, a).Retrying?)
  }

  function Learnt(qs: seq<Query>, s: State, a: Action): set<(CacheKey, Data)>
    requires |s.phases| == |s.asked| == |qs| && Enabled(qs, s, a)
  {
    if a.UpstreamReturns? && a.result.Some? then {(qs[a.q].key, a.result.value)} else {}
  }

  function Next(qs: seq<Query>, s: State, a: Action): (s': State)
    requires |s.phases| == |s.asked| == |qs|
    requires Enabled(qs, s, a)
    ensures |s'.phases| == |s'.asked| == |qs|
  {
    State(
      s.phases[a.q := NextPhase(qs, s, a)],
      NextTable(qs, s, a),
      if a.UpstreamReturns? && a.cacheable then s.stored + Learnt(qs, s, a) else s.stored,
      s.known + Learnt(qs, s, a),
      if Asks(qs, s, a) then s.asked[a.q := s.asked[a.q] + 1] else s.asked)
  }

  // ----- the invariant -----

  predicate Holds(p: Phase) { p.Leading? || p.Fetched? }

  /** The channel a query owns, as its phase alone determines it. */
  function OwnChannel(p: Phase): Option<Channel> {
    match p
    case Leading => Some(Open)
    case Fetched(_) => Some(Open)
    case Unlisted(_) => Some(Open)
    case Answered(Some(r), Led, _) => Some(Sent(r))
    case Answered(None, Led, _) => Some(Closed)
    case _ => None
  }

  predicate TableMatchesLeaders(qs: seq<Query>, s: State)
    requires |s.phases| == |qs|
  {
    && (forall k :: k in s.table.inflight ==>
          var q := s.table.inflight[k]; q < |qs| && qs[q].key == k && Holds(s.phases[q]))
    && (forall q :: 0 <= q < |qs| && Holds(s.phases[q]) ==>
          qs[q].key in s.table.inflight && s.table.inflight[qs[q].key] == q)
  }

  function ChannelOf(t: Table, q: nat): Option<Channel> {
    if q in t.channels then Some(t.channels[q]) else None
  }

  predicate ChannelsMatchOwners(qs: seq<Query>, s: State)
    requires |s.phases| == |qs|
  {
    && (forall c :: c in s.table.channels ==> c < |qs|)
    && (forall q :: 0 <= q < |qs| ==>
          OwnChannel(s.phases[q]) == ChannelOf(s.table, q))
  }

  predicate FollowsLeader(qs: seq<Query>, s: State, q: nat, leader: nat)
    requires |s.phases| == |qs| && q < |qs|
  {
    leader < |qs| && leader in s.table.channels && qs[leader].key == qs[q].key
  }

  predicate FollowsFailed(qs: seq<Query>, s: State, q: nat, leader: nat)
    requires |s.phases| == |qs| && q < |qs|
  {
    FollowsLeader(qs, s, q, leader) && s.table.channels[leader].Closed?
  }

  /** What the phase of one query says about the answers it has seen and given. */
  ghost predicate Accounted(qs: seq<Query>, s: State, q: nat)
    requires |s.phases| == |s.asked| == |qs| && q < |qs|
  {
    var key, msg := qs[q].key, qs[q].msg;
    match s.phases[q]
    case Started => s.asked[q] == 0
    case Missed => s.asked[q] == 0
    case Leading => s.asked[q] == 1
    case Fetched(r) => s.asked[q] == 1 && (r.Some? ==> (key, r.value) in s.known)
    case Unlisted(r) => s.asked[q] == 1 && (r.Some? ==> (key, r.value) in s.known)
    case Waiting(l) => s.asked[q] == 0 && FollowsLeader(qs, s, q, l)
    case Retrying(l) => s.asked[q] == 1 && FollowsFailed(qs, s, q, l)
    case Answered(out, Led, refreshing) =>
      s.asked[q] == 1 && !refreshing && (out.Some? ==> (key, out.value) in s.known)
    case Answered(out, Retried(l), refreshing) =>
      && s.asked[q] == 1 && !refreshing && FollowsFailed(qs, s, q, l)
      && (out.Some? ==> (key, out.value) in s.known)
    case Answered(out, Cached, _) =>
      s.asked[q] == 0 && exists r :: (key, r) in s.known && out == Some(PatchId(r, msg))
    case Answered(out, Shared(l), refreshing) =>
      && s.asked[q] == 0 && !refreshing
      && FollowsLeader(qs, s, q, l)
      && s.table.channels[l].Sent?
      && out == Some(PatchId(s.table.channels[l].resp, msg))
  }

  ghost predicate Inv(qs: seq<Query>, s: State) {
    && |s.phases| == |s.asked| == |qs|
    && TableMatchesLeaders(qs, s)
    && ChannelsMatchOwners(qs, s)
    && (forall q :: 0 <= q < |qs| ==> Accounted(qs, s, q))
    && s.stored <= s.known
  }

  /** Channels never reopen and known responses are never forgotten, so what was accounted stays so. */
  lemma StillAccounted(qs: seq<Query>, s: State, s': State, q: nat)
    requires |s.phases| == |s.asked| == |s'.phases| == |s'.asked| == |qs| && q < |qs|
    requires Accounted(qs, s, q)
    requires s'.phases[q] == s.phases[q] && s'.asked[q] == s.asked[q]
    requires s.known <= s'.known
    requires forall c :: c in s.table.channels ==> c in s'.table.channels
    requires forall c :: c in s.table.channels && !s.table.channels[c].Open? ==>
               s'.table.channels[c] == s.table.channels[c]
    ensures Accounted(qs, s', q)
  {
  }

  lemma NextKeepsTable(qs: seq<Query>, s: State, a: Action)
    requires Inv(qs, s) && Enabled(qs, s, a)
    ensures TableMatchesLeaders(qs, Next(qs, s, a))
  {
    var s' := Next(qs, s, a);
    forall q | 0 <= q < |qs| && Holds(s'.phases[q])
      ensures qs[q].key in s'.table.inflight && s'.table.inflight[qs[q].key] == q
    {
      assert q != a.q ==> Holds(s.phases[q]);
    }
    forall k | k in s'.table.inflight
      ensures var q := s'.table.inflight[k]; q < |qs| && qs[q].key == k && Holds(s'.phases[q])
    {
      var q := s'.table.inflight[k];
      if q != a.q {
        assert k in s.table.inflight && s'.phases[q] == s.phases[q];
      }
    }
  }

  lemma NextKeepsChannels(qs: seq<Query>, s: State, a: Action)
    requires Inv(qs, s) && Enabled(qs, s, a)
    ensures ChannelsMatchOwners(qs, Next(qs, s, a))
    ensures forall c :: c in s.table.channels ==> c in Next(qs, s, a).table.channels
    ensures forall c :: c in s.table.channels && !s.table.channels[c].Open? ==>
              Next(qs, s, a).table.channels[c] == s.table.channels[c]
  {
    var s' := Next(qs, s, a);
    OwnChannelFollows(qs, s, a);
    forall q | 0 <= q < |qs|
      ensures OwnChannel(s'.phases[q]) == ChannelOf(s'.table, q)
    {
      if q != a.q {
        OtherChannelsStay(qs, s, a, q);
        assert OwnChannel(s.phases[q]) == ChannelOf(s.table, q);
      }
    }
    forall c | c in s.table.channels
      ensures c in s'.table.channels && (!s.table.channels[c].Open? ==> s'.table.channels[c] == s.table.channels[c])
    {
      if c != a.q {
        OtherChannelsStay(qs, s, a, c);
      }
    }
  }

  lemma OtherChannelsStay(qs: seq<Query>, s: State, a: Action, q: nat)
    requires |s.phases| == |s.asked| == |qs| && Enabled(qs, s, a) && q != a.q
    ensures ChannelOf(NextTable(qs, s, a), q) == ChannelOf(s.table, q)
  {
  }

  /** The channel of the query that acts follows its phase, and changes only if it was open or absent. */
  lemma OwnChannelFollows(qs: seq<Query>, s: State, a: Action)
    requires Inv(qs, s) && Enabled(qs, s, a)
    ensures var before, after := ChannelOf(s.table, a.q), ChannelOf(NextTable(qs, s, a), a.q);
      && OwnChannel(NextPhase(qs, s, a)) == after
      && (before.Some? ==> after.Some?) && (before.Some? && !before.value.Open? ==> after == before)
    ensures forall c :: c in NextTable(qs, s, a).channels ==> c < |qs|
  {
    assert OwnChannel(s.phases[a.q]) == ChannelOf(s.table, a.q) && Accounted(qs, s, a.q);
  }

  lemma NextKeepsInv(qs: seq<Query>, s: State, a: Action)
    requires Inv(qs, s) && Enabled(qs, s, a)
    ensures Inv(qs, Next(qs, s, a))
  {
    var s' := Next(qs, s, a);
    NextKeepsTable(qs, s, a);
    NextKeepsChannels(qs, s, a);
    assert Accounted(qs, s, a.q);
    if a.LookUp? && !a.lookup.Miss? {
      var r := a.lookup.resp;
      assert (qs[a.q].key, r) in s.known && s'.phases[a.q].outcome == Some(PatchId(r, qs[a.q].msg));
    }
    forall q | 0 <= q < |qs|
      ensures Accounted(qs, s', q)
    {
      if q != a.q {
        StillAccounted(qs, s, s', q);
      }
    }
  }

  lemma InitHasInv(qs: seq<Query>, s: State)
    requires Init(qs, s)
    ensures Inv(qs, s)
  {
  }

  // ----- whole runs -----

  ghost predicate Runs(qs: seq<Query>, s: State, acts: seq<Action>)
    requires |s.phases| == |s.asked| == |qs|
    decreases |acts|
  {
    acts == [] || (Enabled(qs, s, acts[0]) && Runs(qs, Next(qs, s, acts[0]), acts[1..]))
  }

  ghost function After(qs: seq<Query>, s: State, acts: seq<Action>): (s': State)
    requires |s.phases| == |s.asked| == |qs| && Runs(qs, s, acts)
    ensures |s'.phases| == |s'.asked| == |qs|
    decreases |acts|
  {
    if acts == [] then s else After(qs, Next(qs, s, acts[0]), acts[1..])
  }

  lemma {:induction false} RunKeepsInv(qs: seq<Query>, s: State, acts: seq<Action>)
    requires Inv(qs, s) && Runs(qs, s, acts)
    ensures Inv(qs, After(qs, s, acts))
    decreases |acts|
  {
    if acts != [] {
      NextKeepsInv(qs, s, acts[0]);
      RunKeepsInv(qs, Next(qs, s, acts[0]), acts[1..]);
    }
  }

  /** In every reachable state a key is listed exactly while one query, and no second one, leads it. */
  lemma {:induction false} ListedExactlyWhileLed(qs: seq<Query>, s0: State, acts: seq<Action>, key: CacheKey)
    requires Init(qs, s0) && Runs(qs, s0, acts)
    ensures var s := After(qs, s0, acts);
      && (key in s.table.inflight <==> exists q :: 0 <= q < |qs| && qs[q].key == key && Holds(s.phases[q]))
      && (forall p, q | 0 <= p < |qs| && 0 <= q < |qs| && Holds(s.phases[p]) && Holds(s.phases[q]) ::
            qs[p].key == qs[q].key == key ==> p == q)
  {
    InitHasInv(qs, s0);
    RunKeepsInv(qs, s0, acts);
  }

  /** The answer a leader of the same key gave, for good: nothing if its upstream query failed. */
  ghost predicate LedTo(qs: seq<Query>, s: State, q: nat, leader: nat, outcome: Option<Data>)
    requires |s.phases| == |qs| && q < |qs|
  {
    && leader < |qs| && qs[leader].key == qs[q].key
    && s.phases[leader].Answered? && s.phases[leader].source == Led && s.phases[leader].outcome == outcome
  }

  /** Every answer given in any run: a query that shared its leader's result got exactly the bytes the
      leader answered with, under its own id; one that retried did so because its leader had failed; one
      that led or retried asked upstream once; one served from cache or from a leader never asked; and every
      successful answer is a response known for the query's own key, as it came or under the query's id. */
  lemma {:induction false} EveryAnswerIsAccountedFor(qs: seq<Query>, s0: State, acts: seq<Action>, q: nat)
    requires Init(qs, s0) && Runs(qs, s0, acts) && q < |qs|
    requires After(qs, s0, acts).phases[q].Answered?
    ensures var s := After(qs, s0, acts); var p := s.phases[q];
      && s.asked[q] == (if p.source.Led? || p.source.Retried? then 1 else 0)
      && (p.source.Shared? ==>
            exists r :: LedTo(qs, s, q, p.source.leader, Some(r)) && p.outcome == Some(PatchId(r, qs[q].msg)))
      && (p.source.Retried? ==> LedTo(qs, s, q, p.source.leader, None))
      && (p.outcome.Some? ==>
            exists r :: (qs[q].key, r) in s.known && (p.outcome.value == r || p.outcome.value == PatchId(r, qs[q].msg)))
  {
    InitHasInv(qs, s0);
    RunKeepsInv(qs, s0, acts);
    var s := After(qs, s0, acts);
    assert Accounted(qs, s, q);
    var p := s.phases[q];
    if p.source.Shared? || p.source.Retried? {
      SettledChannelSpeaks(qs, s, q, p.source.leader);
    }
  }

  /** A channel that is not open any more says what its leader answered. */
  lemma SettledChannelSpeaks(qs: seq<Query>, s: State, q: nat, l: nat)
    requires Inv(qs, s) && q < |qs| && FollowsLeader(qs, s, q, l) && !s.table.channels[l].Open?
    ensures s.table.channels[l].Closed? ==> LedTo(qs, s, q, l, None)
    ensures s.table.channels[l].Sent? ==>
              var r := s.table.channels[l].resp; LedTo(qs, s, q, l, Some(r)) && (qs[q].key, r) in s.known
  {
    assert OwnChannel(s.phases[l]) == ChannelOf(s.table, l) && Accounted(qs, s, l);
  }

  /** Deduplication: in every reachable state a query has asked upstream at most once, and has asked only if it leads or
      led, or if the leader of the same key it had subscribed to has failed; a query that waits has not asked. */
  lemma {:induction false} WaitersAskOnlyAfterFailure(qs: seq<Query>, s0: State, acts: seq<Action>, q: nat)
    requires Init(qs, s0) && Runs(qs, s0, acts) && q < |qs|
    ensures var s := After(qs, s0, acts);
      match s.phases[q]
      case Leading => s.asked[q] == 1
      case Fetched(_) => s.asked[q] == 1
      case Unlisted(_) => s.asked[q] == 1
      case Retrying(l) => s.asked[q] == 1 && LedTo(qs, s, q, l, None)
      case Answered(_, Led, _) => s.asked[q] == 1
      case Answered(_, Retried(l), _) => s.asked[q] == 1 && LedTo(qs, s, q, l, None)
      case _ => s.asked[q] == 0
  {
    InitHasInv(qs, s0);
    RunKeepsInv(qs, s0, acts);
    var s := After(qs, s0, acts);
    assert Accounted(qs, s, q);
    match s.phases[q]
    case Retrying(l) => SettledChannelSpeaks(qs, s, q, l);
    case Answered(_, Retried(l), _) => SettledChannelSpeaks(qs, s, q, l);
    case _ =>
  }

  // ----- what a run says about its answers -----

  predicate Returns(a: Action, q: nat) { a.UpstreamReturns? && a.q == q }

  predicate Looks(a: Action, q: nat) { a.LookUp? && a.q == q }

  /** The upstream has not returned anything to query `q`, neither an answer nor a refresh. */
  ghost predicate NeverTold(acts: seq<Action>, q: nat) {
    forall i :: 0 <= i < |acts| ==> !Returns(acts[i], q)
  }

  /** The upstream returned exactly once to query `q`, and returned `result`. */
  ghost predicate ToldOnce(acts: seq<Action>, q: nat, result: Option<Data>) {
    exists i :: 0 <= i < |acts| && Returns(acts[i], q) && acts[i].result == result
                && forall j :: 0 <= j < |acts| && Returns(acts[j], q) ==> j == i
  }

  ghost predicate NeverLooked(acts: seq<Action>, q: nat) {
    forall i :: 0 <= i < |acts| ==> !Looks(acts[i], q)
  }

  /** Query `q` looked into the cache exactly once, and found `lookup`. */
  ghost predicate LookedOnce(acts: seq<Action>, q: nat, lookup: Cache.CacheResult) {
    exists i :: 0 <= i < |acts| && Looks(acts[i], q) && acts[i].lookup == lookup
                && forall j :: 0 <= j < |acts| && Looks(acts[j], q) ==> j == i
  }

  /** The answer `outcome` is what the cache gave, under the query's own id; a stale one is refreshed once. */
  ghost predicate FromCache(acts: seq<Action>, q: nat, msg: Data, outcome: Option<Data>, refreshing: bool) {
    exists l: Cache.CacheResult ::
      && LookedOnce(acts, q, l) && !l.Miss? && outcome == Some(PatchId(l.resp, msg))
      && (if l.Hit? || refreshing then NeverTold(acts, q) else exists r :: ToldOnce(acts, q, r))
      && (refreshing ==> l.Stale?)
  }

  /** What the steps so far have to be for query `q` to be in phase `p`. */
  ghost predicate Explained(acts: seq<Action>, q: nat, msg: Data, p: Phase) {
    match p
    case Started => NeverLooked(acts, q) && NeverTold(acts, q)
    case Fetched(r) => LookedOnce(acts, q, Cache.Miss) && ToldOnce(acts, q, r)
    case Unlisted(r) => LookedOnce(acts, q, Cache.Miss) && ToldOnce(acts, q, r)
    case Answered(out, Cached, refreshing) => FromCache(acts, q, msg, out, refreshing)
    case Answered(_, Shared(_), refreshing) => LookedOnce(acts, q, Cache.Miss) && NeverTold(acts, q) && !refreshing
    case Answered(out, _, refreshing) => LookedOnce(acts, q, Cache.Miss) && ToldOnce(acts, q, out) && !refreshing
    case _ => LookedOnce(acts, q, Cache.Miss) && NeverTold(acts, q)
  }

  /** A step that tells `q` nothing, and shows it nothing, leaves the record of `q` as it was. */
  lemma RecordStays(acts: seq<Action>, a: Action, q: nat)
    ensures !Returns(a, q) ==>
              && (NeverTold(acts, q) ==> NeverTold(acts + [a], q))
              && (forall r :: ToldOnce(acts, q, r) ==> ToldOnce(acts + [a], q, r))
    ensures !Looks(a, q) ==>
              && (NeverLooked(acts, q) ==> NeverLooked(acts + [a], q))
              && (forall l :: LookedOnce(acts, q, l) ==> LookedOnce(acts + [a], q, l))
  {
    var all := acts + [a];
    forall r | ToldOnce(acts, q, r) && !Returns(a, q)
      ensures ToldOnce(all, q, r)
    {
      var i :| 0 <= i < |acts| && Returns(acts[i], q) && acts[i].result == r
               && forall j :: 0 <= j < |acts| && Returns(acts[j], q) ==> j == i;
      assert Returns(all[i], q) && forall j :: 0 <= j < |all| && Returns(all[j], q) ==> j == i;
    }
    forall l | LookedOnce(acts, q, l) && !Looks(a, q)
      ensures LookedOnce(all, q, l)
    {
      var i :| 0 <= i < |acts| && Looks(acts[i], q) && acts[i].lookup == l
               && forall j :: 0 <= j < |acts| && Looks(acts[j], q) ==> j == i;
      assert Looks(all[i], q) && forall j :: 0 <= j < |all| && Looks(all[j], q) ==> j == i;
    }
  }

  lemma RecordGrows(acts: seq<Action>, a: Action, q: nat)
    ensures Returns(a, q) && NeverTold(acts, q) ==> ToldOnce(acts + [a], q, a.result)
    ensures Looks(a, q) && NeverLooked(acts, q) ==> LookedOnce(acts + [a], q, a.lookup)
  {
    var all := acts + [a];
    assert all[|acts|] == a && forall j :: 0 <= j < |acts| ==> all[j] == acts[j];
  }

  lemma OthersStayExplained(acts: seq<Action>, a: Action, q: nat, msg: Data, p: Phase)
    requires Explained(acts, q, msg, p) && a.q != q
    ensures Explained(acts + [a], q, msg, p)
  {
    RecordStays(acts, a, q);
  }

  lemma StepIsExplained(qs: seq<Query>, s: State, acts: seq<Action>, a: Action)
    requires |s.phases| == |s.asked| == |qs| && Enabled(qs, s, a)
    requires Explained(acts, a.q, qs[a.q].msg, s.phases[a.q])
    ensures Explained(acts + [a], a.q, qs[a.q].msg, NextPhase(qs, s, a))
  {
    RecordStays(acts, a, a.q);
    RecordGrows(acts, a, a.q);
  }

  /** Whatever was done before, a run explains the phase of every query that was explained at its start. */
  lemma {:induction false} RunIsExplained(qs: seq<Query>, s: State, past: seq<Action>, acts: seq<Action>, q: nat)
    requires |s.phases| == |s.asked| == |qs| && Runs(qs, s, acts) && q < |qs|
    requires Explained(past, q, qs[q].msg, s.phases[q])
    ensures Explained(past + acts, q, qs[q].msg, After(qs, s, acts).phases[q])
    decreases |acts|
  {
    if acts == [] {
      assert past + acts == past;
    } else {
      var a := acts[0];
      if a.q == q {
        StepIsExplained(qs, s, past, a);
      } else {
        OthersStayExplained(past, a, q, qs[q].msg, s.phases[q]);
      }
      RunIsExplained(qs, Next(qs, s, a), past + [a], acts[1..], q);
      assert past + [a] + acts[1..] == past + acts;
    }
  }

  /** Every answer given in any run is what its source said, failures included: a query that led or retried was told
      something by the upstream exactly once, and answers exactly that; one that shared was told nothing; all three
      had missed the cache.  A query whose lookup found something answers exactly that under its own id, whatever
      the upstream says to the refresh of a stale entry. */
  lemma {:induction false} AnswersAreWhatWasSaid(qs: seq<Query>, s0: State, acts: seq<Action>, q: nat)
    requires Init(qs, s0) && Runs(qs, s0, acts) && q < |qs|
    requires After(qs, s0, acts).phases[q].Answered?
    ensures var p := After(qs, s0, acts).phases[q];
      && (p.source.Cached? <==> !LookedOnce(acts, q, Cache.Miss))
      && (p.source.Cached? ==> FromCache(acts, q, qs[q].msg, p.outcome, p.refreshing))
      && (p.source.Shared? ==> NeverTold(acts, q))
      && (p.source.Led? || p.source.Retried? ==> ToldOnce(acts, q, p.outcome))
  {
    RunIsExplained(qs, s0, [], acts, q);
    assert [] + acts == acts;
  }

  // ----- what a run leaves in the cache -----

  /** Some step brought `r` for the key of the query it was made for; `kept` if the resolver stored it. */
  ghost predicate Brought(qs: seq<Query>, acts: seq<Action>, key: CacheKey, r: Data, kept: bool) {
    exists i :: 0 <= i < |acts| && acts[i].UpstreamReturns? && acts[i].q < |qs| && qs[acts[i].q].key == key
                && acts[i].result == Some(r) && (kept ==> acts[i].cacheable)
  }

  /** The responses known and stored after a run are those of the start and those the upstream brought. */
  lemma {:induction false} StoredExactlyWhatWasBrought(
      qs: seq<Query>, s: State, acts: seq<Action>, key: CacheKey, r: Data)
    requires |s.phases| == |s.asked| == |qs| && Runs(qs, s, acts)
    ensures var s' := After(qs, s, acts);
      && ((key, r) in s'.known <==> (key, r) in s.known || Brought(qs, acts, key, r, false))
      && ((key, r) in s'.stored <==> (key, r) in s.stored || Brought(qs, acts, key, r, true))
    decreases |acts|
  {
    if acts != [] {
      var m := Next(qs, s, acts[0]);
      StoredExactlyWhatWasBrought(qs, m, acts[1..], key, r);
      BroughtFirstOrLater(qs, acts, key, r, false);
      BroughtFirstOrLater(qs, acts, key, r, true);
    }
  }

  lemma BroughtFirstOrLater(qs: seq<Query>, acts: seq<Action>, key: CacheKey, r: Data, kept: bool)
    requires acts != []
    ensures Brought(qs, acts, key, r, kept) <==>
            Brought(qs, acts[..1], key, r, kept) || Brought(qs, acts[1..], key, r, kept)
  {
    var rest := acts[1..];
    assert acts[..1][0] == acts[0];
    if Brought(qs, rest, key, r, kept) {
      var i :| 0 <= i < |rest| && rest[i].UpstreamReturns? && rest[i].q < |qs| && qs[rest[i].q].key == key
               && rest[i].result == Some(r) && (kept ==> rest[i].cacheable);
      assert acts[i + 1] == rest[i];
    }
    if Brought(qs, acts, key, r, kept) {
      var i :| 0 <= i < |acts| && acts[i].UpstreamReturns? && acts[i].q < |qs| && qs[acts[i].q].key == key
               && acts[i].result == Some(r) && (kept ==> acts[i].cacheable);
      assert i > 0 ==> rest[i - 1] == acts[i];
    }
  }

  /** A response brought for any query of a key, and stored, can be the answer of every later query of that key,
      without another question to the upstream; one that was never stored cannot. */
  lemma {:induction false} StoredAnswersServeLaterQueries(
      qs: seq<Query>, s0: State, acts: seq<Action>, q: nat, r: Data)
    requires Init(qs, s0) && Runs(qs, s0, acts) && q < |qs| && After(qs, s0, acts).phases[q].Started?
    ensures var s := After(qs, s0, acts); var a := LookUp(q, Cache.Hit(r));
      && (Enabled(qs, s, a) <==> (qs[q].key, r) in s0.stored || Brought(qs, acts, qs[q].key, r, true))
      && (Enabled(qs, s, a) ==>
            var s' := Next(qs, s, a);
            && s'.phases[q] == Answered(Some(PatchId(r, qs[q].msg)), Cached, false)
            && s'.asked == s.asked && s'.table == s.table)
  {
    StoredExactlyWhatWasBrought(qs, s0, acts, qs[q].key, r);
  }

  // ----- every run ends, and ends with everything answered -----

  function Rank(p: Phase): nat {
    match p
    case Started => 7
    case Missed => 6
    case Leading => 5
    case Fetched(_) => 4
    case Unlisted(_) => 3
    case Waiting(_) => 3
    case Retrying(_) => 2
    case Answered(_, _, refreshing) => if refreshing then 1 else 0
  }

  function TotalRank(ps: seq<Phase>): nat {
    if ps == [] then 0 else Rank(ps[0]) + TotalRank(ps[1..])
  }

  lemma {:induction false} TotalRankUpdate(ps: seq<Phase>, q: nat, p: Phase)
    requires q < |ps|
    ensures TotalRank(ps[q := p]) == TotalRank(ps) - Rank(ps[q]) + Rank(p)
  {
    if q == 0 {
      assert ps[q := p][1..] == ps[1..];
    } else {
      assert ps[q := p][1..] == ps[1..][q - 1 := p];
      TotalRankUpdate(ps[1..], q - 1, p);
    }
  }

  lemma {:induction false} TotalRankBound(ps: seq<Phase>)
    ensures TotalRank(ps) <= 7 * |ps|
  {
    if ps != [] {
      TotalRankBound(ps[1..]);
    }
  }

  lemma NextLowersRank(qs: seq<Query>, s: State, a: Action)
    requires |s.phases| == |s.asked| == |qs| && Enabled(qs, s, a)
    ensures TotalRank(Next(qs, s, a).phases) < TotalRank(s.phases)
  {
    TotalRankUpdate(s.phases, a.q, Next(qs, s, a).phases[a.q]);
  }

  lemma {:induction false} RunLowersRank(qs: seq<Query>, s: State, acts: seq<Action>)
    requires |s.phases| == |s.asked| == |qs| && Runs(qs, s, acts)
    ensures TotalRank(After(qs, s, acts).phases) + |acts| <= TotalRank(s.phases)
    decreases |acts|
  {
    if acts != [] {
      NextLowersRank(qs, s, acts[0]);
      RunLowersRank(qs, Next(qs, s, acts[0]), acts[1..]);
    }
  }

  predicate Finished(p: Phase) { p.Answered? && !p.refreshing }

  /** The step an unfinished query takes next, or the step its leader takes if the query waits for one. */
  function Push(s: State, q: nat): Action
    requires q < |s.phases|
  {
    var owner := if s.phases[q].Waiting? && s.phases[q].leader < |s.phases|
                      && !s.phases[s.phases[q].leader].Answered? then s.phases[q].leader else q;
    match s.phases[owner]
    case Started => LookUp(owner, Cache.Miss)
    case Missed => TryLead(owner)
    case Fetched(_) => TakeOut(owner)
    case Unlisted(_) => Publish(owner)
    case Waiting(_) => Receive(owner)
    case _ => UpstreamReturns(owner, None, false)
  }

  /** No query is ever stranded: an unfinished one can step, or the leader it waits for can. */
  lemma NobodyIsStranded(qs: seq<Query>, s: State, q: nat)
    requires Inv(qs, s) && q < |qs| && !Finished(s.phases[q])
    ensures Enabled(qs, s, Push(s, q))
    ensures Push(s, q).q == q || (s.phases[q].Waiting? && Push(s, q).q == s.phases[q].leader)
  {
    assert Accounted(qs, s, q);
    if s.phases[q].Waiting? {
      var l := s.phases[q].leader;
      assert OwnChannel(s.phases[l]) == Some(s.table.channels[l]);
    }
  }

  /** No run takes more than seven steps per query, and a run that can go no further has answered
      every query and emptied the table. */
  lemma {:induction false} EveryRunFinishes(qs: seq<Query>, s0: State, acts: seq<Action>)
    requires Init(qs, s0) && Runs(qs, s0, acts)
    ensures |acts| <= 7 * |qs|
    ensures var s := After(qs, s0, acts);
      (forall a :: !Enabled(qs, s, a)) ==>
        s.table.inflight == map[] && forall q :: 0 <= q < |qs| ==> Finished(s.phases[q])
  {
    RunLowersRank(qs, s0, acts);
    TotalRankBound(s0.phases);
    InitHasInv(qs, s0);
    RunKeepsInv(qs, s0, acts);
    var s := After(qs, s0, acts);
    if forall a :: !Enabled(qs, s, a) {
      forall q | 0 <= q < |qs|
        ensures Finished(s.phases[q])
      {
        if !Finished(s.phases[q]) {
          NobodyIsStranded(qs, s, q);
        }
      }
    }
  }
}
