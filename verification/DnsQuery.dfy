/** Queries: the builder, and the walkers that take name, type and first address back out. */
module DnsQuery {
  import opened Bytes
  import opened DnsWire
  import opened DnsEncoded

  // ----- queries -----

  const DOT: Byte := '.' as int

  /** The position of the first dot from `i` on, or the length. */
  function DotFrom(s: Data, i: nat): (d: nat)
    requires i <= |s|
    ensures i <= d <= |s| && (d < |s| ==> s[d] == DOT) && forall k :: i <= k < d ==> s[k] != DOT
    decreases |s| - i
  {
    if i == |s| || s[i] == DOT then i else DotFrom(s, i + 1)
  }

  /** `str::split('.')`. */
  function Split(s: Data): seq<Data>
    decreases |s|
  {
    var d := DotFrom(s, 0);
    if d == |s| then [s] else [s[..d]] + Split(s[d + 1..])
  }

  function Join(ls: seq<Data>): Data {
    if ls == [] then [] else if |ls| == 1 then ls[0] else ls[0] + [DOT] + Join(ls[1..])
  }

  function NonEmpty(ls: seq<Data>): seq<Data> {
    if ls == [] then [] else (if ls[0] == [] then [] else [ls[0]]) + NonEmpty(ls[1..])
  }

  const QUERY_HEADER: Data := [0, 1, 1, 0, 0, 1, 0, 0, 0, 0, 0, 0]

  /** The question: labels, a zero byte, type and class. */
  function QuestionBytes(ls: seq<Data>, qtype: nat): Data { NameBytes(Name(ls, None)) + (PutU16(qtype) + [0, 1]) }

  function Query(name: Data, qtype: nat): Data { QUERY_HEADER + QuestionBytes(NonEmpty(Split(name)), qtype) }

  /** One question and nothing else, recursion desired (section 4.1.1 of RFC 1035), of class IN. */
  lemma QueryIsOneQuestion(name: Data, qtype: nat)
    ensures var m := Query(name, qtype);
      && |m| >= 16 && m[0] == 0 && m[1] == 1 && m[2] == 1 && m[3] == 0
      && m[4] == 0 && m[5] == 1 && (forall i :: 6 <= i < 12 ==> m[i] == 0)
      && m[|m| - 2] == 0 && m[|m| - 1] == 1
  {
    var q := QuestionBytes(NonEmpty(Split(name)), qtype);
    assert |q| >= 4 && q[|q| - 2] == 0 && q[|q| - 1] == 1;
    assert forall i :: 0 <= i < 12 ==> Query(name, qtype)[i] == QUERY_HEADER[i];
  }

  method BuildQuery(name: Data, qtype: nat) returns (m: Data)
    ensures m == Query(name, qtype)
  {
    m := QUERY_HEADER;
    var labels := Split(name);
    var i := 0;
    while i < |labels|
      invariant 0 <= i <= |labels|
      invariant m + LabelBytes(NonEmpty(labels[i..])) == QUERY_HEADER + LabelBytes(NonEmpty(labels))
    {
      var one := labels[i];
      assert labels[i..][1..] == labels[i + 1..];
      if one != [] {
        ghost var rest := NonEmpty(labels[i + 1..]);
        assert NonEmpty(labels[i..]) == [one] + rest && ([one] + rest)[1..] == rest;
        Reassociate(m, [|one| % 256] + one, LabelBytes(rest));
        m := m + ([|one| % 256] + one);
      } else {
        assert NonEmpty(labels[i..]) == NonEmpty(labels[i + 1..]);
      }
      i := i + 1;
    }
    assert labels[i..] == [] && m + [] == m;
    ghost var labelBytes := LabelBytes(NonEmpty(labels));
    Reassociate(QUERY_HEADER, labelBytes, [0]);
    m := m + [0];
    Reassociate(QUERY_HEADER, labelBytes + [0], PutU16(qtype) + [0, 1]);
    m := m + (PutU16(qtype) + [0, 1]);
  }

  /** `ls` in front of the labels found later, if any walk succeeded. */
  function Before(ls: seq<Data>, rest: Option<seq<Data>>): (r: Option<seq<Data>>)
    ensures ls == [] ==> r == rest
    ensures r == Some(ls) <==> rest == Some([])
  {
    if rest.None? then None else
      assert [] + rest.value == rest.value;
      assert rest.value != [] ==> |ls + rest.value| > |ls|;
      assert ls + [] == ls;
      Some(ls + rest.value)
  }

  lemma BeforeBefore(a: seq<Data>, b: seq<Data>, rest: Option<seq<Data>>)
    ensures Before(a, Before(b, rest)) == Before(a + b, rest)
  {
    if rest.Some? {
      assert a + (b + rest.value) == (a + b) + rest.value;
    }
  }

  /** The labels of the question name, up to a zero byte or a pointer; `text` is the lossy conversion of a label's
      bytes to text. */
  function LabelsAt(text: Data -> Data, m: Data, pos: nat): Option<seq<Data>>
    decreases |m| - pos
  {
    if pos >= |m| then None
    else if m[pos] == 0 || m[pos] >= 0xC0 then Some([])
    else if pos + 1 + Num(m[pos]) > |m| then None
    else Before([text(m[pos + 1..pos + 1 + Num(m[pos])])], LabelsAt(text, m, pos + 1 + Num(m[pos])))
  }

  /** `extract_qname`. */
  function Qname(text: Data -> Data, m: Data): Option<Data> {
    if |m| < 13 then None else
      var ls := LabelsAt(text, m, 12);
      if ls.None? || ls.value == [] then None else Some(Join(ls.value))
  }

  /** `extract_qtype`. */
  function Qtype(m: Data): Option<nat> {
    if |m| < 13 then None else
      var p := SkipName(m, 12);
      if p.None? || p.value + 2 > |m| then None else Some(At16(m, p.value))
  }

  method ExtractQname(text: Data -> Data, m: Data) returns (r: Option<Data>)
    ensures r == Qname(text, m)
  {
    if |m| < 13 {
      return None;
    }
    var pos: nat := 12;
    var labels := [];
    while true
      invariant Before(labels, LabelsAt(text, m, pos)) == LabelsAt(text, m, 12)
      decreases |m| - pos
    {
      if pos >= |m| {
        return None;
      }
      var len := Num(m[pos]);
      if len == 0 || len >= 0xC0 {
        break;
      }
      if pos + 1 + len > |m| {
        return None;
      }
      var part := text(m[pos + 1..pos + 1 + len]);
      BeforeBefore(labels, [part], LabelsAt(text, m, pos + 1 + len));
      labels := labels + [part];
      pos := pos + 1 + len;
    }
    r := if labels == [] then None else Some(Join(labels));
  }

  method ExtractQtype(m: Data) returns (r: Option<nat>)
    ensures r == Qtype(m)
  {
    if |m| < 13 {
      return None;
    }
    var p := SkipNameLoop(m, 12);
    if p.None? || p.value + 2 > |m| {
      return None;
    }
    r := Some(At16(m, p.value));
  }

  /** What one answer is to the search for an address: missing or cut off, something else, or an address. */
  datatype Seen = CutOff | Other(next: nat) | Address(octets: Data)

  function AnswerAt(m: Data, pos: nat, qtype: nat): Seen
    requires pos < |m|
  {
    var p := SkipOwner(m, pos);
    if p.None? || p.value + 10 > |m| then CutOff else
      var len := At16(m, p.value + 8);
      var at := p.value + 10;
      if at + len > |m| then CutOff
      else if At16(m, p.value) == qtype && ((qtype == 1 && len == 4) || (qtype == 28 && len == 16)) then
        Address(m[at..at + len])
      else Other(at + len)
  }

  /** The octets of the first answer of type `qtype` with the length that type calls for. */
  function IpIn(m: Data, pos: nat, n: nat, qtype: nat): Option<Data>
    decreases n
  {
    if n == 0 || pos >= |m| then None else
      match AnswerAt(m, pos, qtype)
      case CutOff => None
      case Address(octets) => Some(octets)
      case Other(next) => IpIn(m, next, n - 1, qtype)
  }

  /** `extract_first_ip`. */
  function FirstIp(m: Data, qtype: nat): Option<Data> {
    if |m| < 12 || At16(m, 6) == 0 then None else
      var q := QuestionEnd(m);
      if q.None? then None else IpIn(m, q.value, At16(m, 6), qtype)
  }

  method ExtractFirstIp(m: Data, qtype: nat) returns (r: Option<Data>)
    ensures r == FirstIp(m, qtype)
  {
    if |m| < 12 || At16(m, 6) == 0 {
      return None;
    }
    var ancount := At16(m, 6);
    var q := SkipNameLoop(m, 12);
    if q.None? {
      return None;
    }
    r := FindIp(m, q.value + 4, ancount, qtype);
  }

  method FindIp(m: Data, start: nat, ancount: nat, qtype: nat) returns (r: Option<Data>)
    ensures r == IpIn(m, start, ancount, qtype)
  {
    var pos: nat := start;
    var i := 0;
    while i < ancount
      invariant 0 <= i <= ancount
      invariant IpIn(m, pos, ancount - i, qtype) == IpIn(m, start, ancount, qtype)
    {
      if pos >= |m| {
        break;
      }
      var seen := ReadAnswer(m, pos, qtype);
      match seen
      case CutOff => break;
      case Address(octets) => return Some(octets);
      case Other(next) =>
        pos := next;
        i := i + 1;
    }
    r := None;
  }

  method ReadAnswer(m: Data, start: nat, qtype: nat) returns (r: Seen)
    requires start < |m|
    ensures r == AnswerAt(m, start, qtype)
  {
    var p := SkipOwnerLoop(m, start);
    if p.None? || p.value + 10 > |m| {
      return CutOff;
    }
    var rrType, rdlength := At16(m, p.value), At16(m, p.value + 8);
    var pos := p.value + 10;
    if pos + rdlength > |m| {
      return CutOff;
    }
    if rrType == qtype {
      if (qtype == 1 && rdlength == 4) || (qtype == 28 && rdlength == 16) {
        return Address(m[pos..pos + rdlength]);
      }
    }
    r := Other(pos + rdlength);
  }

  // ----- names survive the query -----

  /** What a name is made of: labels without dots, short enough for a length byte that is not a pointer. */
  ghost predicate NameLabels(ls: seq<Data>) {
    ls != [] && ProperLabels(ls) && forall i :: 0 <= i < |ls| ==> DOT !in ls[i]
  }

  lemma {:induction false} SplitAtDot(a: Data, rest: Data)
    requires DOT !in a
    ensures Split(a) == [a] && Split(a + [DOT] + rest) == [a] + Split(rest)
  {
    var s := a + [DOT] + rest;
    var d := DotFrom(s, 0);
    assert s[|a|] == DOT && forall k :: 0 <= k < |a| ==> s[k] == a[k];
    assert s[..d] == a && s[d + 1..] == rest;
  }

  lemma {:induction false} SplitUndoesJoin(ls: seq<Data>)
    requires NameLabels(ls)
    ensures Split(Join(ls)) == ls
    decreases |ls|
  {
    if |ls| == 1 {
      SplitAtDot(ls[0], []);
      assert ls == [ls[0]];
    } else {
      SplitAtDot(ls[0], Join(ls[1..]));
      SplitUndoesJoin(ls[1..]);
      assert ls == [ls[0]] + ls[1..];
    }
  }

  lemma {:induction false} AllNonEmpty(ls: seq<Data>)
    requires ProperLabels(ls)
    ensures NonEmpty(ls) == ls
  {
    if ls != [] {
      AllNonEmpty(ls[1..]);
      assert ls == [ls[0]] + ls[1..];
    }
  }

  /** The labels are text: converting them changes nothing. */
  ghost predicate Readable(text: Data -> Data, ls: seq<Data>) { forall i :: 0 <= i < |ls| ==> text(ls[i]) == ls[i] }

  lemma {:induction false} LabelsOver(text: Data -> Data, m: Data, pos: nat, ls: seq<Data>)
    requires ProperLabels(ls) && Readable(text, ls)
    requires Here(m, pos, LabelBytes(ls)) && Here(m, pos + |LabelBytes(ls)|, [0])
    ensures LabelsAt(text, m, pos) == Some(ls)
    decreases |ls|
  {
    if ls == [] {
      HereByte(m, pos, [0], 0);
    } else {
      var one, rest := [|ls[0]|] + ls[0], LabelBytes(ls[1..]);
      assert |ls[0]| % 256 == |ls[0]|;
      HereSplit(m, pos, one, rest);
      HereByte(m, pos, one, 0);
      HereSplit(m, pos, [|ls[0]|], ls[0]);
      assert m[pos + 1..pos + 1 + |ls[0]|] == ls[0];
      LabelsOver(text, m, pos + |one|, ls[1..]);
      assert ls == [ls[0]] + ls[1..];
    }
  }

  lemma {:induction false} QueryIsQuestion(ls: seq<Data>, qtype: nat)
    requires NameLabels(ls)
    ensures Query(Join(ls), qtype) == QUERY_HEADER + QuestionBytes(ls, qtype)
  {
    SplitUndoesJoin(ls);
    AllNonEmpty(ls);
  }

  /** The name and the type put into a query are the ones taken out of it. */
  lemma {:induction false} QueryKeepsNameAndType(text: Data -> Data, ls: seq<Data>, qtype: nat)
    requires NameLabels(ls) && Readable(text, ls) && qtype < 0x1_0000
    ensures Qname(text, Query(Join(ls), qtype)) == Some(Join(ls)) && Qtype(Query(Join(ls), qtype)) == Some(qtype)
  {
    QueryIsQuestion(ls, qtype);
    PutU16Exact(qtype);
    var m, n, t := Query(Join(ls), qtype), NameBytes(Name(ls, None)), PutU16(qtype);
    assert [] + (t + [0, 1]) == t + [0, 1];
    Pieces(m, QUERY_HEADER, n, [], t, [0, 1]);
    QuestionAt(text, m, ls, t);
  }

  lemma {:induction false} QuestionAt(text: Data -> Data, m: Data, ls: seq<Data>, t: Data)
    requires NameLabels(ls) && Readable(text, ls) && |t| == 2
    requires Here(m, 12, NameBytes(Name(ls, None))) && Here(m, 12 + |NameBytes(Name(ls, None))|, t)
    ensures Qname(text, m) == Some(Join(ls)) && Qtype(m) == Some(U16(t[0], t[1]))
  {
    SkipNameOver(m, 12, Name(ls, None));
    TypeAt(m, 12 + |NameBytes(Name(ls, None))|, t);
    NameAt(text, m, ls);
  }

  lemma {:induction false} NameAt(text: Data -> Data, m: Data, ls: seq<Data>)
    requires NameLabels(ls) && Readable(text, ls) && Here(m, 12, NameBytes(Name(ls, None)))
    ensures Qname(text, m) == Some(Join(ls))
  {
    assert NameBytes(Name(ls, None)) == LabelBytes(ls) + [0];
    HereSplit(m, 12, LabelBytes(ls), [0]);
    LabelsOver(text, m, 12, ls);
  }

  lemma {:induction false} TypeAt(m: Data, p: nat, t: Data)
    requires Here(m, p, t) && |t| == 2 && SkipName(m, 12) == Some(p) && |m| >= 13
    ensures Qtype(m) == Some(U16(t[0], t[1]))
  {
  }

  // ----- the first address of a response -----

  /** Whether a record is an address of type `qtype`. */
  predicate IsAddress(r: Record, qtype: nat)
    requires ProperRecord(r)
  {
    Typ(r) == qtype && ((qtype == 1 && |r.rdata| == 4) || (qtype == 28 && |r.rdata| == 16))
  }

  function FirstAddress(rs: seq<Record>, qtype: nat): Option<Data>
    requires AllProper(rs)
  {
    if rs == [] then None
    else if IsAddress(rs[0], qtype) then Some(rs[0].rdata)
    else FirstAddress(rs[1..], qtype)
  }

  lemma IpInStep(m: Data, pos: nat, r: Record, n: nat, qtype: nat)
    requires ProperRecord(r) && ProperOwner(r.owner) && Here(m, pos, RecordBytes(r)) && n > 0
    ensures IpIn(m, pos, n, qtype) ==
            if IsAddress(r, qtype) then Some(r.rdata) else IpIn(m, pos + |RecordBytes(r)|, n - 1, qtype)
  {
    AnswerAtRecord(m, pos, r, qtype);
  }

  lemma AnswerAtRecord(m: Data, pos: nat, r: Record, qtype: nat)
    requires ProperRecord(r) && ProperOwner(r.owner) && Here(m, pos, RecordBytes(r))
    ensures pos < |m| &&
            AnswerAt(m, pos, qtype) == if IsAddress(r, qtype) then Address(r.rdata) else Other(pos + |RecordBytes(r)|)
  {
    RecordOver(m, pos, r);
    HereSlice(m, pos + |NameBytes(r.owner)| + 10, r.rdata);
  }

  lemma HereSlice(m: Data, pos: nat, s: Data)
    requires Here(m, pos, s)
    ensures m[pos..pos + |s|] == s
  {
  }

  lemma {:induction false} IpInOver(m: Data, pos: nat, rs: seq<Record>, qtype: nat)
    requires AllProper(rs) && forall i :: 0 <= i < |rs| ==> ProperOwner(rs[i].owner)
    requires Here(m, pos, AllRecords(rs))
    ensures IpIn(m, pos, |rs|, qtype) == FirstAddress(rs, qtype)
    decreases |rs|
  {
    if rs != [] {
      FirstRecord(m, pos, rs);
      IpInStep(m, pos, rs[0], |rs|, qtype);
      IpInOver(m, pos + |RecordBytes(rs[0])|, rs[1..], qtype);
    }
  }

  /** On an encoded response the address found is the data of the first answer of the right type and length. */
  lemma {:induction false} FirstIpIsFirstAddress(r: Response, qtype: nat)
    requires ProperResponse(r) && forall i :: 0 <= i < |r.answers| ==> ProperOwner(r.answers[i].owner)
    ensures FirstIp(ResponseBytes(r), qtype) == FirstAddress(r.answers, qtype)
  {
    SectionsOf(r);
    IpInOver(ResponseBytes(r), 16 + |NameBytes(r.qname)|, r.answers, qtype);
  }
}
