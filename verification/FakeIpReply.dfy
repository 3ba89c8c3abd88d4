/** The FakeIP server: it answers an address query for a name with a pool address of that name. */
module FakeIpReply {
  import opened Bytes
  import opened FakeIp
  import opened DnsWire
  import opened DnsQuery
  import Encoded = DnsEncoded
  import Persistence = FakeIpPersistence
  import Cache = DnsCache
  import Varint

  datatype Strategy = PreferIpv4 | PreferIpv6 | Ipv4Only | Ipv6Only

  /** The excluded names and suffixes of the configuration, lower-case, and the strategy in force. */
  datatype Rules = Rules(domains: set<Domain>, suffixes: seq<Domain>, strategy: Strategy)

  predicate EndsWith(s: Data, suffix: Data) { |suffix| <= |s| && s[|s| - |suffix|..] == suffix }

  function TrimDots(s: Data): Data { if s != [] && s[0] == DOT then TrimDots(s[1..]) else s }

  predicate Excluded(rules: Rules, name: Domain) {
    var lower := Cache.Lower(name);
    lower in rules.domains
    || exists i :: 0 <= i < |rules.suffixes| &&
         (EndsWith(lower, rules.suffixes[i]) || lower == TrimDots(rules.suffixes[i]))
  }

  method IsExcluded(rules: Rules, name: Domain) returns (r: bool)
    ensures r == Excluded(rules, name)
  {
    var lower := Cache.Lower(name);
    if lower in rules.domains {
      return true;
    }
    for i := 0 to |rules.suffixes|
      invariant forall k :: 0 <= k < i ==>
        !EndsWith(lower, rules.suffixes[k]) && lower != TrimDots(rules.suffixes[k])
    {
      if EndsWith(lower, rules.suffixes[i]) || lower == TrimDots(rules.suffixes[i]) {
        return true;
      }
    }
    r := false;
  }

  predicate AllDots(s: Data) { forall i :: 0 <= i < |s| ==> s[i] == DOT }

  lemma {:induction false} TrimDotsIs(s: Data, k: nat)
    requires k <= |s| && AllDots(s[..k]) && (k < |s| ==> s[k] != DOT)
    ensures TrimDots(s) == s[k..]
    decreases k
  {
    if k > 0 {
      assert s[0] == s[..k][0] && s[1..][..k - 1] == s[..k][1..] && s[1..][k - 1..] == s[k..];
      TrimDotsIs(s[1..], k - 1);
    }
  }

  lemma {:induction false} TrimDotsExists(s: Data) returns (k: nat)
    ensures k <= |s| && AllDots(s[..k]) && (k < |s| ==> s[k] != DOT) && TrimDots(s) == s[k..]
  {
    k := 0;
    if s != [] && s[0] == DOT {
      var j := TrimDotsExists(s[1..]);
      k := j + 1;
      assert s[..k] == [s[0]] + s[1..][..j] && s[1..][j..] == s[k..];
    }
  }

  /** The name ends with the suffix. */
  ghost predicate Ends(suffix: Domain, lower: Domain) { exists front :: lower == front + suffix }

  /** The name is what the suffix spells behind its leading dots. */
  ghost predicate Spells(suffix: Domain, lower: Domain) {
    (lower == [] || lower[0] != DOT) && exists dots :: suffix == dots + lower && AllDots(dots)
  }

  lemma EndsWithMeans(suffix: Domain, lower: Domain)
    ensures EndsWith(lower, suffix) <==> Ends(suffix, lower)
  {
    if EndsWith(lower, suffix) {
      assert lower == lower[..|lower| - |suffix|] + suffix;
    }
  }

  lemma {:induction false} TrimDotsMeans(suffix: Domain, lower: Domain)
    ensures lower == TrimDots(suffix) <==> Spells(suffix, lower)
  {
    if lower == TrimDots(suffix) {
      var k := TrimDotsExists(suffix);
      assert suffix == suffix[..k] + lower;
    }
    if Spells(suffix, lower) {
      var dots :| suffix == dots + lower && AllDots(dots);
      assert suffix[..|dots|] == dots && suffix[|dots|..] == lower;
      TrimDotsIs(suffix, |dots|);
    }
  }

  /** A name is excluded if it is listed, ends with a listed suffix or is one without its dots; names that differ in
      case only are excluded together. */
  lemma ExcludedExactlyWhen(rules: Rules, name: Domain, other: Domain)
    ensures var lower := Cache.Lower(name);
      Excluded(rules, name) <==>
      lower in rules.domains || exists s :: s in rules.suffixes && (Ends(s, lower) || Spells(s, lower))
    ensures Cache.SameUpToCase(name, other) ==> Excluded(rules, name) == Excluded(rules, other)
  {
    var lower := Cache.Lower(name);
    forall s: Domain
      ensures EndsWith(lower, s) <==> Ends(s, lower)
      ensures lower == TrimDots(s) <==> Spells(s, lower)
    {
      EndsWithMeans(s, lower);
      TrimDotsMeans(s, lower);
    }
    Cache.LowerForgetsCase(name, other);
  }

  // ----- replies -----

  /** A bare header with the id of the query, the authoritative bit and a response code. */
  function Bare(query: Data, rcode: Byte): (m: Data)
    ensures |m| == 12
  {
    (if |query| >= 2 then [query[0], query[1]] else [0, 0]) + [0x84, rcode, 0, 0, 0, 0, 0, 0, 0, 0]
  }

  const NOERROR: Byte := 0
  const NXDOMAIN: Byte := 3

  function TypeOf(f: Family): Byte { if f == Four then 1 else 28 }

  function Octets(f: Family): Byte { if f == Four then 4 else 16 }

  /** `octets`: the bytes of an address. */
  function AddressBytes(f: Family, n: nat): (s: Data)
    ensures |s| == Octets(f)
  {
    Varint.PutBigEndian(n, Octets(f))
  }

  /** Type, class, a lifetime of one second and the data length. */
  function Fixed(f: Family): Data { [0, TypeOf(f), 0, 1, 0, 0, 0, 1, 0, Octets(f)] }

  /** The answer: its owner name points back at the question. */
  function Answer(f: Family, n: nat): Encoded.Record {
    Encoded.Record(Name([], Some((0xC0, 0x0C))), Fixed(f), AddressBytes(f, n))
  }

  function ReplyHeader(query: Data): (h: Data)
    requires |query| >= 12
    ensures |h| == 12
  {
    query[..2] + [0x81, 0x80, 0, 1, 0, 1, 0, 0, 0, 0]
  }

  /** `build_ip_response`. */
  function IpResponse(query: Data, f: Family, n: nat): Data {
    if |query| < 12 then Bare(query, NOERROR)
    else ReplyHeader(query) + (query[12..] + Encoded.RecordBytes(Answer(f, n)))
  }

  predicate Allows(strategy: Strategy, f: Family) { if f == Four then strategy != Ipv6Only else strategy != Ipv4Only }

  /** The family and the name a query is about, when it asks for addresses. */
  function Asked(text: Data -> Data, query: Data): Option<(Family, Domain)> {
    var t, n := Qtype(query), Qname(text, query);
    if t.None? || (t.value != 1 && t.value != 28) || n.None? then None
    else Some((if t.value == 1 then Four else Six, n.value))
  }

  /** The store after a query and the reply to it. */
  function Reply(text: Data -> Data, s: Store, rules: Rules, query: Data): (Store, Data) {
    ReplyTo(Asked(text, query), s, rules, query)
  }

  function ReplyTo(asked: Option<(Family, Domain)>, s: Store, rules: Rules, query: Data): (Store, Data) {
    match asked
    case None => (s, Bare(query, NOERROR))
    case Some((f, name)) =>
      if Excluded(rules, name) then (s, Bare(query, NXDOMAIN))
      else if !Allows(rules.strategy, f) then (s, Bare(query, NOERROR))
      else
        var s' := Allocate(s, f, name);
        var a := AddressOf(s', f, name);
        (s', if a.Some? then IpResponse(query, f, a.value) else Bare(query, NOERROR))
  }

  /** The operations a query queues for the cache file. */
  function ReplyLog(text: Data -> Data, s: Store, rules: Rules, query: Data, now: nat): seq<Persistence.WriteOp> {
    match Asked(text, query)
    case None => []
    case Some((f, name)) =>
      if Excluded(rules, name) || !Allows(rules.strategy, f) then []
      else Persistence.Logged(s, Request(f, name, now))
  }

  method Respond(text: Data -> Data, store: Persistence.FakeIpStore, rules: Rules, query: Data, now: nat)
    returns (m: Data)
    modifies store
    ensures (store.View(), m) == Reply(text, old(store.View()), rules, query)
    ensures store.queued == old(store.queued) +
                            if store.persistent then ReplyLog(text, old(store.View()), rules, query, now) else []
  {
    var qtype := ExtractQtype(query);
    if qtype.None? || (qtype.value != 1 && qtype.value != 28) {
      return Bare(query, NOERROR);
    }
    var qname := ExtractQname(text, query);
    if qname.None? {
      return Bare(query, NOERROR);
    }
    var excluded := IsExcluded(rules, qname.value);
    if excluded {
      return Bare(query, NXDOMAIN);
    }
    if qtype.value == 1 {
      if rules.strategy == Ipv6Only {
        return Bare(query, NOERROR);
      }
      var ip := store.AllocateV4(qname.value, now);
      m := if ip.Some? then IpResponse(query, Four, ip.value) else Bare(query, NOERROR);
    } else {
      if rules.strategy == Ipv4Only {
        return Bare(query, NOERROR);
      }
      var ip := store.AllocateV6(qname.value, now);
      m := if ip.Some? then IpResponse(query, Six, ip.value) else Bare(query, NOERROR);
    }
  }

  // ----- what the client makes of the reply -----

  lemma {:induction false} BytesMakeBits(k: nat)
    ensures Varint.Pow256(k) == Pow2(8 * k)
  {
    if k > 0 {
      BytesMakeBits(k - 1);
      Pow2Sum(8, 8 * (k - 1));
      assert Pow2(4) == 16 && Pow2(8) == 256;
    }
  }

  lemma AddressBytesExact(f: Family, n: nat)
    requires n < Pow2(Width(f))
    ensures Varint.BigEndian(AddressBytes(f, n)) == n
  {
    BytesMakeBits(Octets(f));
    Varint.BigEndianUndoesPut(n, Octets(f));
  }

  /** A client's message with one question: header, labels, class, and the records behind the question, such as
      the OPT record of an extended query. */
  datatype Message = Message(header: Data, labels: seq<Data>, class_: Data, records: seq<Encoded.Record>)

  ghost predicate ProperMessage(m: Message) {
    && |m.header| == 12 && NameLabels(m.labels) && |m.class_| == 2 && Encoded.AllProper(m.records)
    && (m.records != [] ==> ProperOwner(m.records[0].owner))
  }

  function MessageBytes(m: Message, f: Family): Data {
    m.header + (NameBytes(Name(m.labels, None)) + ((PutU16(TypeOf(f)) + m.class_) + Encoded.AllRecords(m.records)))
  }

  lemma {:induction false} QueryIsMessage(ls: seq<Data>, f: Family)
    requires NameLabels(ls)
    ensures var m := Message(QUERY_HEADER, ls, [0, 1], []);
      ProperMessage(m) && Query(Join(ls), TypeOf(f)) == MessageBytes(m, f)
  {
    QueryIsQuestion(ls, TypeOf(f));
    var t := PutU16(TypeOf(f)) + [0, 1];
    assert t + [] == t;
  }

  /** The record a client reads as the answer: the first one behind the question. */
  function ReadAsAnswer(m: Message, f: Family, n: nat): Encoded.Record {
    if m.records == [] then Answer(f, n) else m.records[0]
  }

  lemma OneRecord(r: Encoded.Record)
    ensures Encoded.AllRecords([r]) == Encoded.RecordBytes(r)
  {
    assert [r][1..] == [];
  }

  /** The reply announces one answer behind whatever the message carried behind its question. */
  lemma ReplyIsResponse(m: Message, f: Family, n: nat) returns (r: Encoded.Response)
    requires ProperMessage(m)
    ensures Encoded.ProperResponse(r) && r.answers == [ReadAsAnswer(m, f, n)]
    ensures IpResponse(MessageBytes(m, f), f, n) == Encoded.ResponseBytes(r)
  {
    var bytes, name, t := MessageBytes(m, f), NameBytes(Name(m.labels, None)), PutU16(TypeOf(f)) + m.class_;
    var all := m.records + [Answer(f, n)];
    Encoded.RecordsAppend(m.records, Answer(f, n));
    OneRecord(all[0]);
    assert bytes[12..] == name + (t + Encoded.AllRecords(m.records));
    Reassociate(name, t + Encoded.AllRecords(m.records), Encoded.RecordBytes(Answer(f, n)));
    Reassociate(t, Encoded.AllRecords(m.records), Encoded.RecordBytes(Answer(f, n)));
    AnswerIsProper(f, n);
    r := Encoded.Response(ReplyHeader(bytes), Name(m.labels, None), t, [all[0]], Encoded.AllRecords(all[1..]));
  }

  lemma AnswerIsProper(f: Family, n: nat)
    ensures Encoded.ProperRecord(Answer(f, n)) && ProperOwner(Answer(f, n).owner) && IsAddress(Answer(f, n), TypeOf(f))
  {
  }

  /** The address a client extracts is that of the first record behind the question, if that is an address. */
  lemma ReplyCarriesAddress(m: Message, f: Family, n: nat)
    requires ProperMessage(m)
    ensures Encoded.ProperRecord(ReadAsAnswer(m, f, n))
    ensures FirstIp(IpResponse(MessageBytes(m, f), f, n), TypeOf(f)) ==
            var a := ReadAsAnswer(m, f, n); if IsAddress(a, TypeOf(f)) then Some(a.rdata) else None
  {
    AnswerIsProper(f, n);
    var r := ReplyIsResponse(m, f, n);
    FirstIpIsFirstAddress(r, TypeOf(f));
    assert r.answers[1..] == [];
  }

  lemma AllocatedLeadsBack(s: Store, f: Family, name: Domain)
    requires Inv(s)
    ensures var s' := Allocate(s, f, name);
      var n := AddressOf(s', f, name);
      && Inv(s') && (n.Some? <==> s.Of(f).net.Some?)
      && (n.Some? ==>
            && Varint.BigEndian(AddressBytes(f, n.value)) == n.value && InRange(s.Of(f).net, n.value)
            && IpAddr(f, n.value) in s'.domains && s'.domains[IpAddr(f, n.value)] == name)
  {
    AllocateKeepsInv(s, f, name);
    var s' := Allocate(s, f, name);
    var n := AddressOf(s', f, name);
    if n.Some? {
      assert OneToOne(s', f);
      assert Holdable(f, s'.Of(f).net, n.value);
      AddressBytesExact(f, n.value);
    }
  }

  lemma AskedForName(text: Data -> Data, m: Message, f: Family)
    requires ProperMessage(m) && Readable(text, m.labels)
    ensures Asked(text, MessageBytes(m, f)) == Some((f, Join(m.labels)))
  {
    var bytes, name, t := MessageBytes(m, f), NameBytes(Name(m.labels, None)), PutU16(TypeOf(f));
    var more := m.class_ + Encoded.AllRecords(m.records);
    Reassociate(t, m.class_, Encoded.AllRecords(m.records));
    assert [] + (t + more) == t + more;
    Encoded.Pieces(bytes, m.header, name, [], t, more);
    PutU16Exact(TypeOf(f));
    QuestionAt(text, bytes, m.labels, t);
  }

  lemma BareHasNoAddress(query: Data, rcode: Byte, qtype: nat)
    ensures FirstIp(Bare(query, rcode), qtype).None?
  {
  }

  /** The name is not excluded, the strategy admits the family and the family is configured. */
  predicate Served(s: Store, rules: Rules, name: Domain, f: Family) {
    !Excluded(rules, name) && Allows(rules.strategy, f) && s.Of(f).net.Some?
  }

  /** Every message that asks for a served name gets that name an address in the configured range which leads back
      to the very name.  The client finds it in the reply exactly when the message carried nothing behind its
      question, or by chance the same address; with any other record there it finds that record's address or
      none.  For a name that is not served it finds none. */
  lemma ReplyLeadsBackToName(text: Data -> Data, s: Store, rules: Rules, m: Message, f: Family)
    requires Inv(s) && ProperMessage(m) && Readable(text, m.labels)
    ensures var name := Join(m.labels);
      var (s', reply) := Reply(text, s, rules, MessageBytes(m, f));
      var ip, n := FirstIp(reply, TypeOf(f)), AddressOf(s', f, name);
      && Inv(s')
      && (!Served(s, rules, name, f) ==> ip == None)
      && (Served(s, rules, name, f) ==>
            && n.Some? && InRange(s.Of(f).net, n.value)
            && IpAddr(f, n.value) in s'.domains && s'.domains[IpAddr(f, n.value)] == name
            && (ip.Some? <==> m.records == [] || IsAddress(m.records[0], TypeOf(f)))
            && (m.records == [] ==> Varint.BigEndian(ip.value) == n.value)
            && (m.records != [] && ip.Some? ==> ip.value == m.records[0].rdata))
  {
    var name, query := Join(m.labels), MessageBytes(m, f);
    AskedForName(text, m, f);
    BareHasNoAddress(query, NOERROR, TypeOf(f));
    BareHasNoAddress(query, NXDOMAIN, TypeOf(f));
    if !Excluded(rules, name) && Allows(rules.strategy, f) {
      AllocatedLeadsBack(s, f, name);
      var n := AddressOf(Allocate(s, f, name), f, name);
      if n.Some? {
        AnswerIsProper(f, n.value);
        ReplyCarriesAddress(m, f, n.value);
      }
    }
  }

  /** The header of a response to `query` (section 4.1.1 of RFC 1035): its code, its questions and as many answers. */
  predicate Responds(query: Data, h: Data, rcode: nat, count: nat) {
    && |h| == 12 && (|query| >= 2 ==> h[0] == query[0] && h[1] == query[1])
    && h[2] >= 128 && (h[3] == rcode || h[3] == 128 + rcode)
    && h[4] == h[6] == h[8] == h[9] == h[10] == h[11] == 0 && h[5] == h[7] == count
  }

  /** A bare header with this code, or one with one question and one answer in front of the query's question. */
  predicate Answers(query: Data, r: Data, rcode: nat, found: bool) {
    && |r| >= 12 && Responds(query, r[..12], rcode, if found then 1 else 0)
    && if found then |r| > |query| >= 12 && r[12..|query|] == query[12..] else |r| == 12
  }

  lemma BareAnswers(query: Data, rcode: Byte)
    requires rcode < 16
    ensures Answers(query, Bare(query, rcode), rcode, false)
  {
    var m := Bare(query, rcode);
    assert m[..12] == m;
  }

  lemma ReplyHeaderResponds(query: Data)
    requires |query| >= 12
    ensures Responds(query, ReplyHeader(query), 0, 1)
  {
  }

  lemma InTheMiddle(h: Data, q: Data, rest: Data)
    ensures (h + (q + rest))[..|h|] == h && (h + (q + rest))[|h|..|h| + |q|] == q
  {
  }

  lemma WithAnswerAnswers(query: Data, h: Data, answer: Data)
    requires |query| >= 12 && Responds(query, h, 0, 1) && answer != []
    ensures Answers(query, h + (query[12..] + answer), 0, true)
  {
    InTheMiddle(h, query[12..], answer);
  }

  lemma IpResponseAnswers(query: Data, f: Family, n: nat)
    requires |query| >= 12
    ensures Answers(query, IpResponse(query, f, n), 0, true)
  {
    ReplyHeaderResponds(query);
    WithAnswerAnswers(query, ReplyHeader(query), Encoded.RecordBytes(Answer(f, n)));
  }

  /** Whatever comes in, what goes out is a response to it, with its id: the code is 3 exactly when the query asks for
      the address of an excluded name and 0 otherwise; it has the question of the query and one answer when an
      address was found, and is a bare header otherwise. */
  lemma ReplyAnswersTheQuery(text: Data -> Data, s: Store, rules: Rules, query: Data)
    ensures var (s', r) := Reply(text, s, rules, query);
      var asked := Asked(text, query);
      var refused := asked.Some? && Excluded(rules, asked.value.1);
      var found := asked.Some? && !refused && Allows(rules.strategy, asked.value.0)
                   && AddressOf(s', asked.value.0, asked.value.1).Some?;
      Answers(query, r, if refused then 3 else 0, found)
  {
    BareAnswers(query, NOERROR);
    BareAnswers(query, NXDOMAIN);
    AskedIsLong(text, query);
    var asked := Asked(text, query);
    if asked.Some? {
      var (f, name) := asked.value;
      var n := AddressOf(Allocate(s, f, name), f, name);
      if n.Some? {
        IpResponseAnswers(query, f, n.value);
      }
    }
  }

  lemma AskedIsLong(text: Data -> Data, query: Data)
    ensures Asked(text, query).Some? ==> |query| >= 12
  {
  }

  /** The owner of a record is a pointer (section 4.1.4 of RFC 1035) to offset 12, where the question of a message
      stands; its type is that of the family and its class IN. */
  predicate AboutTheQuestion(answer: Data, f: Family) {
    && |answer| >= 6 && Num(answer[0]) * 256 + Num(answer[1]) == 0xC000 + 12
    && answer[2] == 0 && answer[3] == (if f == Four then 1 else 28) && answer[4] == 0 && answer[5] == 1
  }

  lemma RecordIsAboutTheQuestion(f: Family, n: nat)
    ensures AboutTheQuestion(Encoded.RecordBytes(Answer(f, n)), f)
  {
    var owner := NameBytes(Name([], Some((0xC0, 0x0C))));
    assert owner == [0xC0, 0x0C];
    assert Encoded.RecordBytes(Answer(f, n)) == owner + (Fixed(f) + AddressBytes(f, n));
  }

  lemma Behind(h: Data, q: Data, rest: Data)
    ensures (h + (q + rest))[|h| + |q|..] == rest
  {
  }

  /** Behind what the query carried stands one more record, and it is about the question. */
  lemma AnswerIsAboutTheQuestion(query: Data, f: Family, n: nat)
    requires |query| >= 12
    ensures var r := IpResponse(query, f, n);
      |r| >= |query| && AboutTheQuestion(r[|query|..], f)
  {
    RecordIsAboutTheQuestion(f, n);
    Behind(ReplyHeader(query), query[12..], Encoded.RecordBytes(Answer(f, n)));
  }

  lemma AnswerLifetime(f: Family, n: nat)
    ensures Encoded.Ttl(Answer(f, n)) == 1
  {
  }

  /** A reply to a message that carried nothing behind its question may be kept for one second. */
  lemma {:induction false} ReplyLivesOneSecond(m: Message, f: Family, n: nat)
    requires ProperMessage(m) && m.records == []
    ensures CacheTtl(IpResponse(MessageBytes(m, f), f, n)) == Some(1)
  {
    AnswerIsProper(f, n);
    AnswerLifetime(f, n);
    var r := ReplyIsResponse(m, f, n);
    Encoded.CachedTtlIsLeast(r);
  }

  /** The query this program builds carries nothing behind its question. */
  lemma {:induction false} BuiltQueryLeadsBackToName(
      text: Data -> Data, s: Store, rules: Rules, ls: seq<Data>, f: Family)
    requires Inv(s) && NameLabels(ls) && Readable(text, ls)
    ensures var name := Join(ls);
      var (s', reply) := Reply(text, s, rules, Query(name, TypeOf(f)));
      var ip := FirstIp(reply, TypeOf(f));
      && (ip.Some? <==> Served(s, rules, name, f))
      && (ip.Some? ==>
            var a := IpAddr(f, Varint.BigEndian(ip.value));
            InRange(s.Of(f).net, a.n) && a in s'.domains && s'.domains[a] == name)
  {
    QueryIsMessage(ls, f);
    ReplyLeadsBackToName(text, s, rules, Message(QUERY_HEADER, ls, [0, 1], []), f);
  }

  /** The pseudo record of an extended query (section 6.1.2 of RFC 6891) is not an address, so the reply to such a
      query gives the client none. */
  lemma ExtendedQueryGetsNoAddress(text: Data -> Data, s: Store, rules: Rules, m: Message, f: Family)
    requires Inv(s) && ProperMessage(m) && Readable(text, m.labels)
    requires m.records != [] && Encoded.Typ(m.records[0]) == 41
    ensures FirstIp(Reply(text, s, rules, MessageBytes(m, f)).1, TypeOf(f)) == None
  {
    ReplyLeadsBackToName(text, s, rules, m, f);
  }
}
