/** What the walkers find in well-formed messages. */
module DnsEncoded {
  import opened Bytes
  import opened DnsWire

  /** The bytes `s` stand in `m` at `pos`. */
  predicate Here(m: Data, pos: nat, s: Data) {
    pos + |s| <= |m| && forall i :: 0 <= i < |s| ==> m[pos + i] == s[i]
  }

  lemma HereSplit(m: Data, pos: nat, a: Data, b: Data)
    requires Here(m, pos, a + b)
    ensures Here(m, pos, a) && Here(m, pos + |a|, b)
  {
    forall i | 0 <= i < |a| ensures m[pos + i] == a[i] {
      assert (a + b)[i] == a[i];
    }
    forall i | 0 <= i < |b| ensures m[pos + |a| + i] == b[i] {
      assert (a + b)[|a| + i] == b[i];
    }
  }

  lemma HereByte(m: Data, pos: nat, s: Data, i: nat)
    requires Here(m, pos, s) && i < |s|
    ensures pos + i < |m| && m[pos + i] == s[i]
  {
  }

  /** Walking labels ends where they end. */
  lemma {:induction false} SkipLabelsOver(m: Data, pos: nat, ls: seq<Data>)
    requires ProperLabels(ls) && Here(m, pos, LabelBytes(ls))
    ensures SkipName(m, pos) == SkipName(m, pos + |LabelBytes(ls)|)
    ensures SkipLabels(m, pos) == SkipLabels(m, pos + |LabelBytes(ls)|)
    decreases |ls|
  {
    if ls != [] {
      var one, rest := [|ls[0]|] + ls[0], LabelBytes(ls[1..]);
      assert |ls[0]| % 256 == |ls[0]|;
      HereSplit(m, pos, one, rest);
      HereByte(m, pos, one, 0);
      SkipLabelsOver(m, pos + |one|, ls[1..]);
    }
  }

  /** `skip_name` gets past every name; the owner skipping of the answer walkers gets past exactly those that are
      all labels or a lone pointer, and loses its place after labels that end in a pointer. */
  lemma {:induction false} SkipNameOver(m: Data, pos: nat, n: Name)
    requires ProperName(n) && Here(m, pos, NameBytes(n))
    ensures pos < |m| && SkipName(m, pos) == Some(pos + |NameBytes(n)|)
    ensures SkipOwner(m, pos) == Some(pos + |NameBytes(n)|) <==> ProperOwner(n)
  {
    var labels := LabelBytes(n.labels);
    var tail: Data := if n.pointer.Some? then [n.pointer.value.0, n.pointer.value.1] else [0];
    HereSplit(m, pos, labels, tail);
    HereByte(m, pos + |labels|, tail, 0);
    SkipLabelsOver(m, pos, n.labels);
    if n.labels != [] {
      HereByte(m, pos, labels, 0);
      assert labels[0] == |n.labels[0]|;
    }
  }

  /** A resource record: `fixed` holds type, class, lifetime and data length in ten bytes. */
  datatype Record = Record(owner: Name, fixed: Data, rdata: Data)

  predicate ProperRecord(r: Record) {
    ProperName(r.owner) && |r.fixed| == 10 && U16(r.fixed[8], r.fixed[9]) == |r.rdata|
  }

  function Typ(r: Record): nat
    requires ProperRecord(r)
  {
    U16(r.fixed[0], r.fixed[1])
  }

  function Ttl(r: Record): nat
    requires ProperRecord(r)
  {
    U32(r.fixed[4], r.fixed[5], r.fixed[6], r.fixed[7])
  }

  predicate AllProper(rs: seq<Record>) { forall i :: 0 <= i < |rs| ==> ProperRecord(rs[i]) }

  function RecordBytes(r: Record): Data { NameBytes(r.owner) + (r.fixed + r.rdata) }

  function AllRecords(rs: seq<Record>): Data { if rs == [] then [] else RecordBytes(rs[0]) + AllRecords(rs[1..]) }

  lemma {:induction false} RecordOver(m: Data, pos: nat, r: Record)
    requires ProperRecord(r) && Here(m, pos, RecordBytes(r))
    ensures var p := pos + |NameBytes(r.owner)|;
      && pos < |m| && SkipName(m, pos) == Some(p) && (ProperOwner(r.owner) ==> SkipOwner(m, pos) == Some(p))
      && p + 10 <= |m| && At16(m, p) == Typ(r) && At32(m, p + 4) == Ttl(r) && At16(m, p + 8) == |r.rdata|
      && p + 10 + |r.rdata| == pos + |RecordBytes(r)| && Here(m, p + 10, r.rdata)
  {
    var name, fixed := NameBytes(r.owner), r.fixed;
    HereSplit(m, pos, name, fixed + r.rdata);
    SkipNameOver(m, pos, r.owner);
    HereSplit(m, pos + |name|, fixed, r.rdata);
    FieldsAt(m, pos + |name|, fixed);
  }

  lemma FieldsAt(m: Data, p: nat, f: Data)
    requires Here(m, p, f) && |f| == 10
    ensures p + 10 <= |m| && At16(m, p) == U16(f[0], f[1])
    ensures At32(m, p + 4) == U32(f[4], f[5], f[6], f[7]) && At16(m, p + 8) == U16(f[8], f[9])
  {
  }

  /** The least lifetime in a list. */
  function LeastOf(rs: seq<Record>, least: nat): nat
    requires AllProper(rs)
  {
    if rs == [] then least else LeastOf(rs[1..], Min(Ttl(rs[0]), least))
  }

  lemma {:induction false} LeastOfIsLeast(rs: seq<Record>, least: nat)
    requires AllProper(rs)
    ensures LeastOf(rs, least) <= least && (forall i :: 0 <= i < |rs| ==> LeastOf(rs, least) <= Ttl(rs[i]))
    ensures LeastOf(rs, least) == least || exists i :: 0 <= i < |rs| && LeastOf(rs, least) == Ttl(rs[i])
  {
    if rs != [] {
      var rest := rs[1..];
      LeastOfIsLeast(rest, Min(Ttl(rs[0]), least));
      forall i | 0 <= i < |rs| ensures LeastOf(rs, least) <= Ttl(rs[i]) {
        assert i > 0 ==> rs[i] == rest[i - 1];
      }
      if exists i :: 0 <= i < |rest| && LeastOf(rs, least) == Ttl(rest[i]) {
        var i :| 0 <= i < |rest| && LeastOf(rs, least) == Ttl(rest[i]);
        assert rs[i + 1] == rest[i];
      }
    }
  }

  lemma LeastTtlStep(m: Data, pos: nat, r: Record, n: nat, least: nat)
    requires ProperRecord(r) && ProperOwner(r.owner) && Here(m, pos, RecordBytes(r))
    ensures LeastTtl(m, pos, n + 1, least) == LeastTtl(m, pos + |RecordBytes(r)|, n, Min(Ttl(r), least))
  {
    RecordOver(m, pos, r);
  }

  lemma SkipRrStep(m: Data, pos: nat, r: Record)
    requires ProperRecord(r) && Here(m, pos, RecordBytes(r))
    ensures SkipRr(m, pos) == Some(pos + |RecordBytes(r)|)
  {
    RecordOver(m, pos, r);
    SkipRrIs(m, pos, pos + |NameBytes(r.owner)|, |r.rdata|);
  }

  lemma SkipRrIs(m: Data, pos: nat, p: nat, len: nat)
    requires SkipName(m, pos) == Some(p) && p + 10 <= |m| && At16(m, p + 8) == len
    ensures SkipRr(m, pos) == Some(p + 10 + len)
  {
  }

  lemma {:induction false} FirstRecord(m: Data, pos: nat, rs: seq<Record>)
    requires rs != [] && Here(m, pos, AllRecords(rs))
    ensures Here(m, pos, RecordBytes(rs[0])) && Here(m, pos + |RecordBytes(rs[0])|, AllRecords(rs[1..]))
    ensures |AllRecords(rs)| == |RecordBytes(rs[0])| + |AllRecords(rs[1..])|
  {
    HereSplit(m, pos, RecordBytes(rs[0]), AllRecords(rs[1..]));
  }

  lemma {:induction false} LeastTtlOver(m: Data, pos: nat, rs: seq<Record>, least: nat)
    requires AllProper(rs) && forall i :: 0 <= i < |rs| ==> ProperOwner(rs[i].owner)
    requires Here(m, pos, AllRecords(rs))
    ensures LeastTtl(m, pos, |rs|, least) == Some(LeastOf(rs, least))
    decreases |rs|
  {
    if rs != [] {
      FirstRecord(m, pos, rs);
      LeastTtlStep(m, pos, rs[0], |rs| - 1, least);
      LeastTtlOver(m, pos + |RecordBytes(rs[0])|, rs[1..], Min(Ttl(rs[0]), least));
    }
  }

  lemma {:induction false} SkipRrsOver(m: Data, pos: nat, rs: seq<Record>)
    requires AllProper(rs)
    requires Here(m, pos, AllRecords(rs))
    ensures SkipRrs(m, pos, |rs|) == Some(pos + |AllRecords(rs)|)
    decreases |rs|
  {
    if rs != [] {
      FirstRecord(m, pos, rs);
      SkipRrStep(m, pos, rs[0]);
      SkipRrsOver(m, pos + |RecordBytes(rs[0])|, rs[1..]);
    }
  }

  /** The data of an SOA record: two names, then five 32-bit numbers of which MINIMUM is the last. */
  datatype Soa = Soa(mname: Name, rname: Name, numbers: Data)

  function SoaRdata(s: Soa): Data { NameBytes(s.mname) + (NameBytes(s.rname) + s.numbers) }

  predicate ProperSoa(s: Soa) { ProperName(s.mname) && ProperName(s.rname) && |s.numbers| == 20 }

  function Minimum(s: Soa): nat
    requires ProperSoa(s)
  {
    U32(s.numbers[16], s.numbers[17], s.numbers[18], s.numbers[19])
  }

  lemma SoaRdataOver(m: Data, pos: nat, s: Soa)
    requires ProperSoa(s) && Here(m, pos, SoaRdata(s))
    ensures var a := pos + |NameBytes(s.mname)|; var b := a + |NameBytes(s.rname)|;
      && SkipName(m, pos) == Some(a) && SkipName(m, a) == Some(b)
      && b + 20 <= |m| && At32(m, b + 16) == Minimum(s)
  {
    var x, y := NameBytes(s.mname), NameBytes(s.rname);
    HereSplit(m, pos, x, y + s.numbers);
    SkipNameOver(m, pos, s.mname);
    HereSplit(m, pos + |x|, y, s.numbers);
    SkipNameOver(m, pos + |x|, s.rname);
  }

  predicate IsSoa(r: Record, s: Soa) { ProperRecord(r) && Typ(r) == 6 && r.rdata == SoaRdata(s) && ProperSoa(s) }

  predicate NoSoa(rs: seq<Record>) { AllProper(rs) && forall i :: 0 <= i < |rs| ==> Typ(rs[i]) != 6 }

  predicate SoaComesLast(rs: seq<Record>, s: Soa) {
    rs != [] && AllProper(rs) && IsSoa(rs[|rs| - 1], s) && forall i :: 0 <= i < |rs| - 1 ==> Typ(rs[i]) != 6
  }

  lemma {:induction false} RecordsAppend(rs: seq<Record>, r: Record)
    ensures AllRecords(rs + [r]) == AllRecords(rs) + RecordBytes(r)
  {
    if rs == [] {
      assert rs + [r] == [r] && [r][1..] == [];
    } else {
      assert (rs + [r])[1..] == rs[1..] + [r];
      RecordsAppend(rs[1..], r);
      Reassociate(RecordBytes(rs[0]), AllRecords(rs[1..]), RecordBytes(r));
    }
  }

  lemma RestHasSoaLast(rs: seq<Record>, s: Soa)
    requires SoaComesLast(rs, s) && |rs| > 1
    ensures SoaComesLast(rs[1..], s) && rs[1..][|rs| - 2] == rs[|rs| - 1] && Typ(rs[0]) != 6
  {
  }

  /** The first SOA decides, whatever records stand before and after it. */
  lemma {:induction false} SoaInOver(m: Data, pos: nat, rs: seq<Record>, soa: Record, s: Soa, n: nat)
    requires SoaComesLast(rs, s) && rs[|rs| - 1] == soa && n >= |rs|
    requires Here(m, pos, AllRecords(rs))
    ensures SoaIn(m, pos, n) == Some(Min(Ttl(soa), Minimum(s)))
    decreases |rs|
  {
    if |rs| == 1 {
      FirstRecord(m, pos, rs);
      SoaHere(m, pos, soa, s, n);
    } else {
      RestHasSoaLast(rs, s);
      PassNoSoa(m, pos, rs, n);
      SoaInOver(m, pos + |RecordBytes(rs[0])|, rs[1..], soa, s, n - 1);
    }
  }

  lemma {:induction false} PassNoSoa(m: Data, pos: nat, rs: seq<Record>, n: nat)
    requires rs != [] && AllProper(rs) && Typ(rs[0]) != 6 && n > 0 && Here(m, pos, AllRecords(rs))
    ensures SoaIn(m, pos, n) == SoaIn(m, pos + |RecordBytes(rs[0])|, n - 1)
    ensures Here(m, pos + |RecordBytes(rs[0])|, AllRecords(rs[1..]))
  {
    FirstRecord(m, pos, rs);
    NotSoaHere(m, pos, rs[0], n);
  }

  lemma {:induction false} SoaHere(m: Data, pos: nat, soa: Record, s: Soa, n: nat)
    requires IsSoa(soa, s) && n > 0
    requires Here(m, pos, RecordBytes(soa))
    ensures SoaIn(m, pos, n) == Some(Min(Ttl(soa), Minimum(s)))
  {
    RecordOver(m, pos, soa);
    var p := pos + |NameBytes(soa.owner)|;
    SoaRdataOver(m, p + 10, s);
    var a := p + 10 + |NameBytes(s.mname)|;
    SoaAt(m, pos, n, p, a, a + |NameBytes(s.rname)|);
  }

  lemma SoaAt(m: Data, pos: nat, n: nat, p: nat, a: nat, b: nat)
    requires SkipName(m, pos) == Some(p) && p + 10 <= |m| && At16(m, p) == 6 && n > 0
    requires SkipName(m, p + 10) == Some(a) && SkipName(m, a) == Some(b) && b + 20 <= |m|
    ensures SoaIn(m, pos, n) == Some(Min(At32(m, p + 4), At32(m, b + 16)))
  {
  }

  lemma NotSoaHere(m: Data, pos: nat, r: Record, n: nat)
    requires ProperRecord(r) && Typ(r) != 6 && n > 0 && Here(m, pos, RecordBytes(r))
    ensures SoaIn(m, pos, n) == SoaIn(m, pos + |RecordBytes(r)|, n - 1)
  {
    RecordOver(m, pos, r);
    SkipRrStep(m, pos, r);
  }

  /** A response with one question; `header` holds the twelve header bytes, `rest` what follows the answers. */
  datatype Response = Response(header: Data, qname: Name, qtypeClass: Data, answers: seq<Record>, rest: Data)

  function ResponseBytes(r: Response): Data {
    r.header + (NameBytes(r.qname) + (r.qtypeClass + (AllRecords(r.answers) + r.rest)))
  }

  predicate ProperResponse(r: Response) {
    && |r.header| == 12 && |r.qtypeClass| == 4 && ProperName(r.qname)
    && U16(r.header[6], r.header[7]) == |r.answers|
    && AllProper(r.answers)
  }

  /** Five pieces one after the other stand where their lengths put them. */
  lemma Pieces(m: Data, a: Data, b: Data, c: Data, d: Data, e: Data)
    requires m == a + (b + (c + (d + e)))
    ensures Here(m, 0, a) && Here(m, |a|, b) && Here(m, |a| + |b| + |c|, d) && Here(m, |a| + |b| + |c| + |d|, e)
  {
  }

  lemma SectionsOf(r: Response)
    requires ProperResponse(r)
    ensures var m := ResponseBytes(r); var q := 16 + |NameBytes(r.qname)|;
      && |m| >= 12 && (forall i :: 0 <= i < 12 ==> m[i] == r.header[i])
      && QuestionEnd(m) == Some(q) && Here(m, q, AllRecords(r.answers)) && Here(m, q + |AllRecords(r.answers)|, r.rest)
  {
    var m := ResponseBytes(r);
    Pieces(m, r.header, NameBytes(r.qname), r.qtypeClass, AllRecords(r.answers), r.rest);
    QuestionEndsBehindName(m, r.qname);
    StartsWith(m, r.header);
  }

  lemma QuestionEndsBehindName(m: Data, n: Name)
    requires ProperName(n) && Here(m, 12, NameBytes(n))
    ensures QuestionEnd(m) == Some(16 + |NameBytes(n)|)
  {
    SkipNameOver(m, 12, n);
  }

  lemma StartsWith(m: Data, s: Data)
    requires Here(m, 0, s)
    ensures |m| >= |s| && forall i :: 0 <= i < |s| ==> m[i] == s[i]
  {
    forall i | 0 <= i < |s| ensures m[i] == s[i] {
      HereByte(m, 0, s, i);
    }
  }

  /** The lifetime cached for a response with answers is the least lifetime of any answer; the value that stands
      for "no lifetime" counts as none. */
  lemma CachedTtlIsLeast(r: Response)
    requires ProperResponse(r) && r.answers != []
    requires forall i :: 0 <= i < |r.answers| ==> ProperOwner(r.answers[i].owner)
    ensures var least := LeastOf(r.answers, NO_TTL);
      && CacheTtl(ResponseBytes(r)) == (if least == NO_TTL then None else Some(least))
      && (forall i :: 0 <= i < |r.answers| ==> least <= Ttl(r.answers[i]))
      && (exists i :: 0 <= i < |r.answers| && least == Ttl(r.answers[i]))
  {
    SectionsOf(r);
    LeastTtlOver(ResponseBytes(r), 16 + |NameBytes(r.qname)|, r.answers, NO_TTL);
    LeastOfIsLeast(r.answers, NO_TTL);
    assert Ttl(r.answers[0]) <= NO_TTL;
  }

  /** The lifetime cached for a negative response is the least of the first SOA's lifetime, its MINIMUM and 300. */
  lemma {:induction false} NegativeTtlIsSoa(r: Response, before: seq<Record>, soa: Record, s: Soa, after: Data)
    requires ProperResponse(r) && r.answers == [] && (r.header[3] % 16 == 0 || r.header[3] % 16 == 3)
    requires r.rest == AllRecords(before) + (RecordBytes(soa) + after)
    requires U16(r.header[8], r.header[9]) > |before|
    requires IsSoa(soa, s)
    requires NoSoa(before)
    ensures CacheTtl(ResponseBytes(r)) == Some(Min(Min(Ttl(soa), Minimum(s)), 300))
    ensures Cacheable(ResponseBytes(r))
  {
    var m := ResponseBytes(r);
    var q := 16 + |NameBytes(r.qname)|;
    SectionsOf(r);
    RecordsAppend(before, soa);
    Reassociate(AllRecords(before), RecordBytes(soa), after);
    HereSplit(m, q, AllRecords(before + [soa]), after);
    SoaInOver(m, q, before + [soa], soa, s, U16(r.header[8], r.header[9]));
  }

  predicate HasSoa(rs: seq<Record>)
    requires AllProper(rs)
  {
    rs != [] && (Typ(rs[0]) == 6 || HasSoa(rs[1..]))
  }

  /** Every record is proper, and one of type SOA holds what such a record holds. */
  ghost predicate SoasAreProper(rs: seq<Record>) {
    rs == [] || (ProperRecord(rs[0]) && (Typ(rs[0]) == 6 ==> exists s :: IsSoa(rs[0], s)) && SoasAreProper(rs[1..]))
  }

  lemma {:induction false} SoasAreProperRecords(rs: seq<Record>)
    requires SoasAreProper(rs)
    ensures AllProper(rs)
  {
    if rs != [] {
      SoasAreProperRecords(rs[1..]);
      assert forall i :: 0 < i < |rs| ==> rs[i] == rs[1..][i - 1];
    }
  }

  lemma {:induction false} SoaInFront(m: Data, pos: nat, r: Record, n: nat)
    requires ProperRecord(r) && (exists s :: IsSoa(r, s)) && n > 0 && Here(m, pos, RecordBytes(r))
    ensures SoaIn(m, pos, n).Some?
  {
    var s :| IsSoa(r, s);
    SoaHere(m, pos, r, s, n);
  }

  lemma {:induction false} SoaFoundExactlyWhen(m: Data, pos: nat, rs: seq<Record>)
    requires SoasAreProper(rs) && AllProper(rs) && Here(m, pos, AllRecords(rs))
    ensures SoaIn(m, pos, |rs|).Some? <==> HasSoa(rs)
    decreases |rs|
  {
    if rs != [] {
      FirstRecord(m, pos, rs);
      if Typ(rs[0]) == 6 {
        SoaInFront(m, pos, rs[0], |rs|);
      } else {
        NotSoaHere(m, pos, rs[0], |rs|);
        SoaFoundExactlyWhen(m, pos + |RecordBytes(rs[0])|, rs[1..]);
      }
    }
  }

  lemma {:induction false} SoaTtlIs(m: Data, q: nat, a: nat, authority: seq<Record>)
    requires |m| >= 12 && QuestionEnd(m) == Some(q) && SkipRrs(m, q, At16(m, 6)) == Some(a)
    requires SoasAreProper(authority) && At16(m, 8) == |authority| && Here(m, a, AllRecords(authority))
    ensures AllProper(authority) && (SoaTtl(m).Some? <==> HasSoa(authority))
  {
    SoasAreProperRecords(authority);
    SoaFoundExactlyWhen(m, a, authority);
  }

  lemma CountsAt(m: Data, h: Data)
    requires |h| == 12 && |m| >= 12 && forall i :: 0 <= i < 12 ==> m[i] == h[i]
    ensures m[3] == h[3] && At16(m, 6) == U16(h[6], h[7]) && At16(m, 8) == U16(h[8], h[9])
  {
  }

  lemma {:induction false} SoaTtlBehind(
      m: Data, h: Data, q: nat, answers: seq<Record>, authority: seq<Record>, rest: Data, after: Data)
    requires |h| == 12 && |m| >= 12 && (forall i :: 0 <= i < 12 ==> m[i] == h[i]) && QuestionEnd(m) == Some(q)
    requires U16(h[6], h[7]) == |answers| && U16(h[8], h[9]) == |authority|
    requires AllProper(answers) && SoasAreProper(authority) && rest == AllRecords(authority) + after
    requires Here(m, q, AllRecords(answers)) && Here(m, q + |AllRecords(answers)|, rest)
    ensures AllProper(authority) && (SoaTtl(m).Some? <==> HasSoa(authority))
  {
    var a := q + |AllRecords(answers)|;
    CountsAt(m, h);
    SkipRrsOver(m, q, answers);
    HereSplit(m, a, AllRecords(authority), after);
    SoaTtlIs(m, q, a, authority);
  }

  lemma {:induction false} SoaTtlFound(r: Response, authority: seq<Record>, after: Data)
    requires ProperResponse(r) && SoasAreProper(authority) && r.rest == AllRecords(authority) + after
    requires U16(r.header[8], r.header[9]) == |authority|
    ensures AllProper(authority) && (SoaTtl(ResponseBytes(r)).Some? <==> HasSoa(authority))
  {
    SectionsOf(r);
    SoaTtlBehind(ResponseBytes(r), r.header, 16 + |NameBytes(r.qname)|, r.answers, authority, r.rest, after);
  }

  lemma CacheableIs(m: Data, h: Data, answers: nat)
    requires |h| == 12 && |m| >= 12 && (forall i :: 0 <= i < 12 ==> m[i] == h[i]) && U16(h[6], h[7]) == answers
    ensures var rcode := h[3] % 16;
      Cacheable(m) <==> (rcode == 0 && answers > 0) || ((rcode == 0 || rcode == 3) && SoaTtl(m).Some?)
  {
    CountsAt(m, h);
  }

  /** A response is stored exactly when it has answers and no error, or an SOA among its authority records and
      either no error or the code for a name that does not exist. */
  lemma {:induction false} CacheableExactlyWhen(r: Response, authority: seq<Record>, after: Data)
    requires ProperResponse(r) && SoasAreProper(authority) && r.rest == AllRecords(authority) + after
    requires U16(r.header[8], r.header[9]) == |authority|
    ensures var rcode := r.header[3] % 16;
      AllProper(authority) &&
      (Cacheable(ResponseBytes(r)) <==>
       (rcode == 0 && r.answers != []) || ((rcode == 0 || rcode == 3) && HasSoa(authority)))
  {
    SectionsOf(r);
    SoaTtlFound(r, authority, after);
    CacheableIs(ResponseBytes(r), r.header, |r.answers|);
  }
}
