/** TLS ClientHello messages (section 4.1.2 of RFC 8446): the builder of the REALITY outbound and the sniffer
    that looks for the server name (section 3 of RFC 6066) and for ALPN (section 3.1 of RFC 7301). */
module ClientHello {
  import opened Bytes

  // ----- what is built -----

  datatype Ext = Ext(typ: nat, body: Data)

  function ExtBytes(e: Ext): Data { PutU16(e.typ) + PutU16(|e.body|) + e.body }

  function AllExts(es: seq<Ext>): Data { if es == [] then [] else ExtBytes(es[0]) + AllExts(es[1..]) }

  function U16s(ns: seq<nat>): Data { if ns == [] then [] else PutU16(ns[0]) + U16s(ns[1..]) }

  /** The code points a client offers, which make up its fingerprint. */
  datatype Fingerprint = Fingerprint(suites: seq<nat>, groups: seq<nat>, sigAlgs: seq<nat>)

  /** The fingerprint this client imitates. */
  function Chrome(): Fingerprint {
    Fingerprint(
      [0x1301, 0x1302, 0x1303, 0xc02b, 0xc02f, 0xc02c, 0xc030, 0xcca9, 0xcca8, 0x009c, 0x009d, 0x002f, 0x0035],
      [0x001d, 0x0017, 0x0018],
      [0x0403, 0x0503, 0x0603, 0x0807, 0x0808, 0x0809, 0x080a, 0x080b, 0x0804, 0x0805, 0x0806,
       0x0401, 0x0501, 0x0601])
  }

  const H2: Data := [104, 50]
  const HTTP11: Data := [104, 116, 116, 112, 47, 49, 46, 49]

  function SniBody(name: Data): Data { PutU16(3 + |name|) + [0] + PutU16(|name|) + name }

  /** The protocols offered when none are configured. */
  function Effective(alpn: seq<Data>): seq<Data> { if alpn == [] then [H2, HTTP11] else alpn }

  function AsciiBytes(s: string): Data
    requires forall i :: 0 <= i < |s| ==> s[i] as int < 128
  {
    seq(|s|, i requires 0 <= i < |s| => s[i] as int)
  }

  lemma DefaultsAreHttp()
    ensures Effective([]) == [AsciiBytes("h2"), AsciiBytes("http/1.1")]
  {
    assert AsciiBytes("h2") == H2 && AsciiBytes("http/1.1") == HTTP11;
  }

  function ProtoList(ps: seq<Data>): Data { if ps == [] then [] else [|ps[0]| % 256] + ps[0] + ProtoList(ps[1..]) }

  function AlpnBody(ps: seq<Data>): Data { PutU16(|ProtoList(ps)|) + ProtoList(ps) }

  function ListBody(ns: seq<nat>): Data { PutU16(|ns| * 2) + U16s(ns) }

  function KeyShareBody(key: Data): Data { PutU16(36) + PutU16(0x001d) + PutU16(32) + key }

  function Leading(fp: Fingerprint): seq<Ext> {
    [Ext(0x0017, []), Ext(0xff01, [0]), Ext(0x000a, ListBody(fp.groups)), Ext(0x000b, [1, 0]), Ext(0x0023, [])]
  }

  function Middle(fp: Fingerprint): seq<Ext> {
    [Ext(0x0005, [1, 0, 0, 0, 0]), Ext(0x000d, ListBody(fp.sigAlgs)), Ext(0x0012, [])]
  }

  function Trailing(key: Data): seq<Ext> {
    [Ext(0x0033, KeyShareBody(key)), Ext(0x002d, [1, 1]), Ext(0x002b, [2, 3, 4]), Ext(0x001b, [2, 0, 2])]
  }

  /** The extensions in order; an empty server name sends none. */
  function Extensions(fp: Fingerprint, sni: Data, key: Data, alpn: seq<Data>): seq<Ext> {
    (if sni == [] then [] else [Ext(0, SniBody(sni))])
    + Leading(fp) + [Ext(0x0010, AlpnBody(Effective(alpn)))] + Middle(fp) + Trailing(key)
  }

  /** Everything between the handshake header and the extension block. */
  function Preface(fp: Fingerprint, random: Data, session: Data): Data {
    [3, 3] + random + [32] + session + PutU16(|fp.suites| * 2) + U16s(fp.suites) + [1, 0]
  }

  function HelloBody(fp: Fingerprint, random: Data, session: Data, sni: Data, key: Data, alpn: seq<Data>): Data {
    var exts := AllExts(Extensions(fp, sni, key, alpn));
    Preface(fp, random, session) + PutU16(|exts|) + exts
  }

  function WrapHandshake(body: Data): Data {
    [1, |body| / 0x1_0000 % 256, |body| / 0x100 % 256, |body| % 256] + body
  }

  function WrapRecord(contentType: Byte, payload: Data): Data {
    [contentType, 3, 1] + PutU16(|payload|) + payload
  }

  function Hello(fp: Fingerprint, random: Data, session: Data, sni: Data, key: Data, alpn: seq<Data>): Data {
    WrapRecord(0x16, WrapHandshake(HelloBody(fp, random, session, sni, key, alpn)))
  }

  // ----- the builder, appending to a buffer -----

  lemma {:induction false} AppendExt(es: seq<Ext>, e: Ext)
    ensures AllExts(es + [e]) == AllExts(es) + ExtBytes(e)
  {
    if es == [] {
      assert es + [e] == [e] && [e][1..] == [];
    } else {
      assert (es + [e])[1..] == es[1..] + [e];
      AppendExt(es[1..], e);
    }
  }

  /** `es` are the extensions already in the buffer. */
  method ExtRaw(buf: Data, typ: nat, body: Data, ghost es: seq<Ext>) returns (out: Data)
    requires buf == AllExts(es)
    ensures out == AllExts(es + [Ext(typ, body)])
  {
    AppendExt(es, Ext(typ, body));
    out := buf + PutU16(typ);
    out := out + PutU16(|body|);
    out := out + body;
    assert out == buf + ExtBytes(Ext(typ, body));
  }

  method AppendU16s(buf: Data, ns: seq<nat>) returns (out: Data)
    ensures out == buf + U16s(ns)
  {
    out := buf;
    var i := 0;
    while i < |ns|
      invariant 0 <= i <= |ns| && out + U16s(ns[i..]) == buf + U16s(ns)
    {
      assert ns[i..][1..] == ns[i + 1..];
      Reassociate(out, PutU16(ns[i]), U16s(ns[i + 1..]));
      out := out + PutU16(ns[i]);
      i := i + 1;
    }
    assert ns[i..] == [] && out + [] == out;
  }

  method ExtSni(buf: Data, sni: Data, ghost es: seq<Ext>) returns (out: Data)
    requires buf == AllExts(es)
    ensures out == AllExts(es + if sni == [] then [] else [Ext(0, SniBody(sni))])
  {
    if sni == [] {
      assert es + [] == es;
      return buf;
    }
    var entry := 1 + 2 + |sni|;
    var d := PutU16(entry);
    d := d + [0];
    d := d + PutU16(|sni|);
    d := d + sni;
    out := ExtRaw(buf, 0, d, es);
  }

  method ExtList(buf: Data, typ: nat, ns: seq<nat>, ghost es: seq<Ext>) returns (out: Data)
    requires buf == AllExts(es)
    ensures out == AllExts(es + [Ext(typ, ListBody(ns))])
  {
    var d := AppendU16s(PutU16(|ns| * 2), ns);
    out := ExtRaw(buf, typ, d, es);
  }

  method AppendProtos(protos: seq<Data>) returns (list: Data)
    ensures list == ProtoList(protos)
  {
    list := [];
    var i := 0;
    while i < |protos|
      invariant 0 <= i <= |protos| && list + ProtoList(protos[i..]) == ProtoList(protos)
    {
      var one := [|protos[i]| % 256] + protos[i];
      assert protos[i..][1..] == protos[i + 1..];
      Reassociate(list, one, ProtoList(protos[i + 1..]));
      list := list + one;
      i := i + 1;
    }
    assert protos[i..] == [] && list + [] == list;
  }

  method ExtAlpn(buf: Data, alpn: seq<Data>, ghost es: seq<Ext>) returns (out: Data)
    requires buf == AllExts(es)
    ensures out == AllExts(es + [Ext(0x0010, AlpnBody(Effective(alpn)))])
  {
    var protos := if alpn == [] then [H2, HTTP11] else alpn;
    var list := AppendProtos(protos);
    out := ExtRaw(buf, 0x0010, PutU16(|list|) + list, es);
  }

  method ExtLeading(fp: Fingerprint, buf: Data, ghost es: seq<Ext>) returns (out: Data)
    requires buf == AllExts(es)
    ensures out == AllExts(es + Leading(fp))
  {
    ghost var l := Leading(fp);
    out := ExtRaw(buf, 0x0017, [], es);
    out := ExtRaw(out, 0xff01, [0], es + [l[0]]);
    out := ExtList(out, 0x000a, fp.groups, es + [l[0]] + [l[1]]);
    out := ExtRaw(out, 0x000b, [1, 0], es + [l[0]] + [l[1]] + [l[2]]);
    out := ExtRaw(out, 0x0023, [], es + [l[0]] + [l[1]] + [l[2]] + [l[3]]);
    assert es + [l[0]] + [l[1]] + [l[2]] + [l[3]] + [l[4]] == es + l;
  }

  method ExtMiddle(fp: Fingerprint, buf: Data, ghost es: seq<Ext>) returns (out: Data)
    requires buf == AllExts(es)
    ensures out == AllExts(es + Middle(fp))
  {
    ghost var m := Middle(fp);
    out := ExtRaw(buf, 0x0005, [1, 0, 0, 0, 0], es);
    out := ExtList(out, 0x000d, fp.sigAlgs, es + [m[0]]);
    out := ExtRaw(out, 0x0012, [], es + [m[0]] + [m[1]]);
    assert es + [m[0]] + [m[1]] + [m[2]] == es + m;
  }

  method ExtTrailing(buf: Data, key: Data, ghost es: seq<Ext>) returns (out: Data)
    requires buf == AllExts(es)
    ensures out == AllExts(es + Trailing(key))
  {
    ghost var t := Trailing(key);
    var d := PutU16(2 + 2 + 32);
    d := d + PutU16(0x001d);
    d := d + PutU16(32);
    d := d + key;
    out := ExtRaw(buf, 0x0033, d, es);
    out := ExtRaw(out, 0x002d, [1, 1], es + [t[0]]);
    out := ExtRaw(out, 0x002b, [2, 3, 4], es + [t[0]] + [t[1]]);
    out := ExtRaw(out, 0x001b, [2, 0, 2], es + [t[0]] + [t[1]] + [t[2]]);
    assert es + [t[0]] + [t[1]] + [t[2]] + [t[3]] == es + t;
  }

  method BuildExtensions(fp: Fingerprint, sni: Data, key: Data, alpn: seq<Data>) returns (exts: Data)
    ensures exts == AllExts(Extensions(fp, sni, key, alpn))
  {
    ghost var first := if sni == [] then [] else [Ext(0, SniBody(sni))];
    ghost var alpnExt := Ext(0x0010, AlpnBody(Effective(alpn)));
    exts := ExtSni([], sni, []);
    assert [] + first == first;
    exts := ExtLeading(fp, exts, first);
    exts := ExtAlpn(exts, alpn, first + Leading(fp));
    exts := ExtMiddle(fp, exts, first + Leading(fp) + [alpnExt]);
    exts := ExtTrailing(exts, key, first + Leading(fp) + [alpnExt] + Middle(fp));
  }

  method BuildPreface(fp: Fingerprint, random: Data, session: Data) returns (b: Data)
    ensures b == Preface(fp, random, session)
  {
    b := [3, 3];
    b := b + random;
    b := b + [32];
    b := b + session;
    b := b + PutU16(|fp.suites| * 2);
    b := AppendU16s(b, fp.suites);
    b := b + [1, 0];
  }

  method BuildClientHelloBody(fp: Fingerprint, random: Data, session: Data, sni: Data, key: Data, alpn: seq<Data>)
    returns (b: Data)
    ensures b == HelloBody(fp, random, session, sni, key, alpn)
  {
    b := BuildPreface(fp, random, session);
    var exts := BuildExtensions(fp, sni, key, alpn);
    b := b + PutU16(|exts|);
    b := b + exts;
  }

  /** The record that replaces the library's own first flight. */
  method BuildHelloRecord(random: Data, session: Data, sni: Data, key: Data, alpn: seq<Data>) returns (r: Data)
    ensures r == Hello(Chrome(), random, session, sni, key, alpn)
  {
    var body := BuildClientHelloBody(Chrome(), random, session, sni, key, alpn);
    r := WrapRecord(0x16, WrapHandshake(body));
  }

  // ----- the sniffer -----

  datatype SniffResult = SniffResult(domain: Data, h2: bool)

  /** Where the extension block of a ClientHello record starts and ends; it is cut at the end of the buffer. */
  function BlockBounds(buf: Data): (r: Option<(nat, nat)>)
    ensures r.Some? ==> r.value.0 <= r.value.1 <= |buf|
  {
    if |buf| < 43 || buf[0] != 0x16 || buf[1] != 3 || buf[5] != 1 then None
    else if 43 >= |buf| then None else
      var p1 := 44 + Num(buf[43]);
      if p1 + 2 > |buf| then None else
        var p2 := p1 + 2 + U16(buf[p1], buf[p1 + 1]);
        if p2 + 1 > |buf| then None else
          var p3 := p2 + 1 + Num(buf[p2]);
          if p3 + 2 > |buf| then None else
            Some((p3 + 2, Min(p3 + 2 + U16(buf[p3], buf[p3 + 1]), |buf|)))
  }

  /** The name in a server-name extension: the first entry, if it is a host name that fits and is text. */
  function SniIn(utf8: Data -> bool, d: Data): Option<Data> {
    if |d| <= 2 || d[2] != 0 || |d| < 5 then None else
      var n := U16(d[3], d[4]);
      if 5 + n <= |d| && utf8(d[5..5 + n]) then Some(d[5..5 + n]) else None
  }

  predicate OffersH2(list: Data)
    decreases |list|
  {
    list != [] &&
    var n := Num(list[0]);
    1 + n <= |list| && (list[1..1 + n] == H2 || OffersH2(list[1 + n..]))
  }

  predicate AlpnHasH2(d: Data) {
    |d| >= 2 && OffersH2(d[2..Min(2 + U16(d[0], d[1]), |d|)])
  }

  /** What one extension adds to what has been seen. */
  function OnExt(utf8: Data -> bool, e: Ext, seen: (Option<Data>, bool)): (Option<Data>, bool) {
    if e.typ == 0x0000 && |e.body| >= 2 then
      (if SniIn(utf8, e.body).Some? then SniIn(utf8, e.body) else seen.0, seen.1)
    else if e.typ == 0x0010 then (seen.0, seen.1 || AlpnHasH2(e.body))
    else seen
  }

  function Scan(utf8: Data -> bool, d: Data, seen: (Option<Data>, bool)): (Option<Data>, bool)
    decreases |d|
  {
    if |d| < 4 then seen else
      var end := Min(4 + U16(d[2], d[3]), |d|);
      var seen' := OnExt(utf8, Ext(U16(d[0], d[1]), d[4..end]), seen);
      if seen'.0.Some? && seen'.1 then seen' else Scan(utf8, d[end..], seen')
  }

  function Sniffed(utf8: Data -> bool, buf: Data): Option<SniffResult> {
    var block := BlockBounds(buf);
    if block.None? then None else
      var (sni, h2) := Scan(utf8, buf[block.value.0..block.value.1], (None, false));
      if sni.Some? then Some(SniffResult(sni.value, h2)) else None
  }

  method FindBlock(buf: Data) returns (r: Option<(nat, nat)>)
    ensures r == BlockBounds(buf)
  {
    if |buf| < 43 || buf[0] != 0x16 || buf[1] != 3 || buf[5] != 1 {
      return None;
    }
    var pos := 5 + 4 + 2 + 32;
    if pos >= |buf| {
      return None;
    }
    pos := pos + 1 + Num(buf[pos]);
    if pos + 2 > |buf| {
      return None;
    }
    pos := pos + 2 + U16(buf[pos], buf[pos + 1]);
    if pos + 1 > |buf| {
      return None;
    }
    pos := pos + 1 + Num(buf[pos]);
    if pos + 2 > |buf| {
      return None;
    }
    var extTotal := U16(buf[pos], buf[pos + 1]);
    pos := pos + 2;
    r := Some((pos, Min(pos + extTotal, |buf|)));
  }

  /** `try_tls` on any bytes whatever. */
  method TryTls(utf8: Data -> bool, buf: Data) returns (r: Option<SniffResult>)
    ensures r == Sniffed(utf8, buf)
  {
    var bounds := FindBlock(buf);
    if bounds.None? {
      return None;
    }
    var (pos, extEnd) := bounds.value;
    ghost var goal := Scan(utf8, buf[pos..extEnd], (None, false));
    var seen := (None, false);
    while pos + 4 <= extEnd && !(seen.0.Some? && seen.1)
      invariant 0 <= pos <= extEnd <= |buf|
      invariant (if seen.0.Some? && seen.1 then seen else Scan(utf8, buf[pos..extEnd], seen)) == goal
      decreases extEnd - pos
    {
      pos, seen := NextExt(utf8, buf, pos, extEnd, seen);
    }
    r := if seen.0.Some? then Some(SniffResult(seen.0.value, seen.1)) else None;
  }

  method NextExt(utf8: Data -> bool, buf: Data, pos: nat, extEnd: nat, seen: (Option<Data>, bool))
    returns (pos': nat, seen': (Option<Data>, bool))
    requires pos + 4 <= extEnd <= |buf|
    ensures pos < pos' <= extEnd
    ensures Scan(utf8, buf[pos..extEnd], seen) ==
            if seen'.0.Some? && seen'.1 then seen' else Scan(utf8, buf[pos'..extEnd], seen')
  {
    ScanAt(utf8, buf, pos, extEnd, seen);
    var extType := U16(buf[pos], buf[pos + 1]);
    var extLen := U16(buf[pos + 2], buf[pos + 3]);
    pos' := Min(pos + 4 + extLen, extEnd);
    seen' := ReadExt(utf8, extType, buf[pos + 4..pos'], seen);
  }

  lemma {:induction false} ScanAt(utf8: Data -> bool, buf: Data, pos: nat, extEnd: nat, seen: (Option<Data>, bool))
    requires pos + 4 <= extEnd <= |buf|
    ensures var pos' := Min(pos + 4 + U16(buf[pos + 2], buf[pos + 3]), extEnd);
      var seen' := OnExt(utf8, Ext(U16(buf[pos], buf[pos + 1]), buf[pos + 4..pos']), seen);
      Scan(utf8, buf[pos..extEnd], seen) ==
      if seen'.0.Some? && seen'.1 then seen' else Scan(utf8, buf[pos'..extEnd], seen')
  {
    var len := U16(buf[pos + 2], buf[pos + 3]);
    var end := Min(4 + len, extEnd - pos);
    SlicesAt(buf, pos, extEnd, end);
    ScanOne(utf8, buf[pos..extEnd], seen, end, buf[pos + 4..pos + end], buf[pos + end..extEnd]);
  }

  lemma SlicesAt(buf: Data, pos: nat, extEnd: nat, end: nat)
    requires pos + 4 <= extEnd <= |buf| && 4 <= end <= extEnd - pos
    ensures var d := buf[pos..extEnd];
      && d[0] == buf[pos] && d[1] == buf[pos + 1] && d[2] == buf[pos + 2] && d[3] == buf[pos + 3]
      && d[4..end] == buf[pos + 4..pos + end] && d[end..|d|] == buf[pos + end..extEnd]
  {
    SliceOfSlice(buf, pos, extEnd, 4, end);
    SliceOfSlice(buf, pos, extEnd, end, extEnd - pos);
  }

  lemma {:induction false} ScanOne(
      utf8: Data -> bool, d: Data, seen: (Option<Data>, bool), end: nat, body: Data, rest: Data)
    requires |d| >= 4 && end == Min(4 + U16(d[2], d[3]), |d|) && body == d[4..end] && rest == d[end..|d|]
    ensures var seen' := OnExt(utf8, Ext(U16(d[0], d[1]), body), seen);
      Scan(utf8, d, seen) == if seen'.0.Some? && seen'.1 then seen' else Scan(utf8, rest, seen')
  {
    assert d[end..] == rest;
  }

  lemma SliceOfSlice(s: Data, a: nat, b: nat, i: nat, j: nat)
    requires a <= b <= |s| && i <= j <= b - a
    ensures s[a..b][i..j] == s[a + i..a + j]
  {
    var l, r := s[a..b][i..j], s[a + i..a + j];
    assert |l| == |r|;
    forall k | 0 <= k < |l| ensures l[k] == r[k] {
      assert l[k] == s[a..b][i + k] == s[a + (i + k)];
    }
  }

  method ReadExt(utf8: Data -> bool, extType: nat, body: Data, seen: (Option<Data>, bool))
    returns (seen': (Option<Data>, bool))
    ensures seen' == OnExt(utf8, Ext(extType, body), seen)
  {
    seen' := seen;
    if extType == 0x0000 && |body| >= 2 {
      var name := SniName(utf8, body);
      if name.Some? {
        seen' := (name, seen.1);
      }
    } else if extType == 0x0010 && |body| >= 2 {
      var found := ScanAlpn(body);
      seen' := (seen.0, seen.1 || found);
    }
  }

  method SniName(utf8: Data -> bool, d: Data) returns (r: Option<Data>)
    requires |d| >= 2
    ensures r == SniIn(utf8, d)
  {
    var p := 2;
    r := None;
    if p < |d| && d[p] == 0 {
      p := p + 1;
      if p + 2 <= |d| {
        var nameLen := U16(d[p], d[p + 1]);
        p := p + 2;
        if p + nameLen <= |d| && utf8(d[p..p + nameLen]) {
          r := Some(d[p..p + nameLen]);
        }
      }
    }
  }

  /** `OffersH2` of the list between two positions. */
  predicate OffersIn(d: Data, p: nat, end: nat)
    requires p <= end <= |d|
    decreases end - p
  {
    p < end &&
    var next := p + 1 + Num(d[p]);
    next <= end && (d[p + 1..next] == H2 || OffersIn(d, next, end))
  }

  lemma {:induction false} OffersInIsOffers(d: Data, p: nat, end: nat)
    requires p <= end <= |d|
    ensures OffersIn(d, p, end) <==> OffersH2(d[p..end])
    decreases end - p
  {
    if p < end {
      var left, next := d[p..end], p + 1 + Num(d[p]);
      assert left[0] == d[p];
      if next <= end {
        SliceOfSlice(d, p, end, 1, next - p);
        SliceOfSlice(d, p, end, next - p, |left|);
        assert left[next - p..] == left[next - p..|left|];
        OffersInIsOffers(d, next, end);
      }
    }
  }

  method ScanAlpn(d: Data) returns (h2: bool)
    requires |d| >= 2
    ensures h2 == AlpnHasH2(d)
  {
    h2 := false;
    var p := 2;
    var listEnd := Min(p + U16(d[0], d[1]), |d|);
    OffersInIsOffers(d, p, listEnd);
    while p < listEnd
      invariant 2 <= p <= listEnd <= |d|
      invariant (h2 || OffersIn(d, p, listEnd)) == OffersIn(d, 2, listEnd)
      decreases listEnd - p
    {
      var n := Num(d[p]);
      p := p + 1;
      if p + n > listEnd {
        return;
      }
      if d[p..p + n] == H2 {
        h2 := true;
      }
      p := p + n;
    }
  }

  // ----- what is built is what is seen -----

  lemma {:induction false} U16sLength(ns: seq<nat>)
    ensures |U16s(ns)| == 2 * |ns|
  {
    if ns != [] {
      U16sLength(ns[1..]);
    }
  }

  /** The sniffer finds exactly the extension block of a built record: the two lengths in front of the handshake
      and of the record play no part. */
  lemma BlockOfHello(fp: Fingerprint, random: Data, session: Data, sni: Data, key: Data, alpn: seq<Data>)
    requires |random| == 32 && |session| == 32 && |fp.suites| * 2 < 0x1_0000
    requires |AllExts(Extensions(fp, sni, key, alpn))| < 0x1_0000
    ensures var buf := Hello(fp, random, session, sni, key, alpn);
      var b := BlockBounds(buf);
      b.Some? && buf[b.value.0..b.value.1] == AllExts(Extensions(fp, sni, key, alpn))
  {
    var exts := AllExts(Extensions(fp, sni, key, alpn));
    var body := HelloBody(fp, random, session, sni, key, alpn);
    var len: Data := [|body| / 0x1_0000 % 256, |body| / 0x100 % 256, |body| % 256];
    var head := NineBefore(len, body);
    BlockInPieces(fp, random, session, exts, head);
  }

  lemma NineBefore(len: Data, body: Data) returns (head: Data)
    requires |len| == 3
    ensures |head| == 9 && head[0] == 0x16 && head[1] == 3 && head[5] == 1
    ensures WrapRecord(0x16, [1, len[0], len[1], len[2]] + body) == head + body
  {
    var inner: Data := [1, len[0], len[1], len[2]];
    var size := PutU16(|inner + body|);
    head := [0x16, 3, 1, size[0], size[1]] + inner;
    assert [0x16, 3, 1] + size == [0x16, 3, 1, size[0], size[1]];
  }

  lemma BlockInPieces(fp: Fingerprint, random: Data, session: Data, exts: Data, head: Data)
    requires |random| == 32 && |session| == 32 && |fp.suites| * 2 < 0x1_0000 && |exts| < 0x1_0000
    requires |head| == 9 && head[0] == 0x16 && head[1] == 3 && head[5] == 1
    ensures var buf := head + (Preface(fp, random, session) + PutU16(|exts|) + exts);
      var b := BlockBounds(buf);
      b.Some? && buf[b.value.0..b.value.1] == exts
  {
    U16sLength(fp.suites);
    PutU16Exact(|fp.suites| * 2);
    PutU16Exact(|exts|);
    var cs, suites, len := PutU16(|fp.suites| * 2), U16s(fp.suites), PutU16(|exts|);
    BoundsOfParts(head + [3, 3] + random, session, cs, suites, len, exts);
    Regroup(head, [3, 3], random, [32], session, cs, suites, [1, 0], len, exts);
  }

  lemma Regroup(
      a: Data, b: Data, c: Data, d: Data, e: Data, f: Data, g: Data, h: Data, i: Data, j: Data)
    ensures a + (b + c + d + e + f + g + h + i + j) == a + b + c + d + e + f + g + h + i + j
  {
  }

  lemma BoundsOfParts(start: Data, session: Data, cs: Data, suites: Data, len: Data, exts: Data)
    requires |start| == 43 && start[0] == 0x16 && start[1] == 3 && start[5] == 1 && |session| == 32
    requires |cs| == |len| == 2 && U16(cs[0], cs[1]) == |suites| && U16(len[0], len[1]) == |exts|
    ensures var buf := start + [32] + session + cs + suites + [1, 0] + len + exts;
      var b := BlockBounds(buf);
      b.Some? && buf[b.value.0..b.value.1] == exts
  {
    var n := |suites|;
    var a := start + [32] + session;
    var b := a + cs + suites;
    var c := b + [1, 0];
    var d := c + len;
    var buf := d + exts;
    assert |a| == 76 && |b| == 78 + n && |c| == 80 + n && |d| == 82 + n;
    assert a[43] == 32 && b[..76] == a && b[76] == cs[0] && b[77] == cs[1];
    assert c[..78 + n] == b && c[78 + n] == 1;
    assert d[..80 + n] == c && d[80 + n] == len[0] && d[81 + n] == len[1];
    assert buf[..82 + n] == d && buf[82 + n..] == exts;
    assert buf[0] == start[0] && buf[1] == start[1] && buf[5] == start[5];
    assert buf[43] == 32 && buf[76] == cs[0] && buf[77] == cs[1] && buf[78 + n] == 1;
    assert buf[80 + n] == len[0] && buf[81 + n] == len[1];
  }

  /** Scanning a list of extensions is running through the list, stopping once both answers are known. */
  function Through(utf8: Data -> bool, es: seq<Ext>, seen: (Option<Data>, bool)): (Option<Data>, bool) {
    if es == [] then seen else
      var seen' := OnExt(utf8, es[0], seen);
      if seen'.0.Some? && seen'.1 then seen' else Through(utf8, es[1..], seen')
  }

  ghost predicate Fits(es: seq<Ext>) {
    forall i :: 0 <= i < |es| ==> es[i].typ < 0x1_0000 && |es[i].body| < 0x1_0000
  }

  lemma {:induction false} ScanUndoesAllExts(utf8: Data -> bool, es: seq<Ext>, seen: (Option<Data>, bool))
    requires Fits(es)
    ensures Scan(utf8, AllExts(es), seen) == Through(utf8, es, seen)
    decreases |es|
  {
    if es != [] {
      var e, rest := es[0], AllExts(es[1..]);
      PutU16Exact(e.typ);
      PutU16Exact(|e.body|);
      FirstExt(utf8, PutU16(e.typ), PutU16(|e.body|), e, rest, seen);
      ScanUndoesAllExts(utf8, es[1..], OnExt(utf8, e, seen));
    }
  }

  lemma {:induction false} FirstExt(
      utf8: Data -> bool, t: Data, l: Data, e: Ext, rest: Data, seen: (Option<Data>, bool))
    requires |t| == |l| == 2 && U16(t[0], t[1]) == e.typ && U16(l[0], l[1]) == |e.body|
    ensures var seen' := OnExt(utf8, e, seen);
      Scan(utf8, t + l + e.body + rest, seen) == if seen'.0.Some? && seen'.1 then seen' else Scan(utf8, rest, seen')
  {
  }

  /** Extensions that say nothing about names or protocols. */
  predicate Quiet(es: seq<Ext>) { forall i :: 0 <= i < |es| ==> es[i].typ != 0 && es[i].typ != 0x10 }

  lemma {:induction false} ThroughQuiet(utf8: Data -> bool, es: seq<Ext>, more: seq<Ext>, seen: (Option<Data>, bool))
    requires Quiet(es) && !(seen.0.Some? && seen.1)
    ensures Through(utf8, es + more, seen) == Through(utf8, more, seen)
    decreases |es|
  {
    if es == [] {
      assert es + more == more;
    } else {
      assert (es + more)[1..] == es[1..] + more;
      ThroughQuiet(utf8, es[1..], more, seen);
    }
  }

  lemma SniUndoesBody(utf8: Data -> bool, name: Data)
    requires 5 + |name| < 0x1_0000 && utf8(name)
    ensures SniIn(utf8, SniBody(name)) == Some(name)
  {
    PutU16Exact(|name|);
    NameEntry(utf8, PutU16(3 + |name|), PutU16(|name|), name);
  }

  lemma NameEntry(utf8: Data -> bool, a: Data, b: Data, name: Data)
    requires |a| == |b| == 2 && U16(b[0], b[1]) == |name| && utf8(name)
    ensures SniIn(utf8, a + [0] + b + name) == Some(name)
  {
    var d := a + [0] + b + name;
    assert d[2] == 0 && d[3] == b[0] && d[4] == b[1];
    assert d[5..5 + |name|] == name;
  }

  lemma {:induction false} OffersUndoesList(ps: seq<Data>)
    requires forall i :: 0 <= i < |ps| ==> |ps[i]| < 256
    ensures OffersH2(ProtoList(ps)) <==> H2 in ps
  {
    if ps != [] {
      var p, rest := ps[0], ProtoList(ps[1..]);
      var list := ProtoList(ps);
      assert list == [|p|] + p + rest && Num(list[0]) == |p|;
      assert list[1..1 + |p|] == p && list[1 + |p|..] == rest;
      OffersUndoesList(ps[1..]);
      assert ps == [p] + ps[1..];
    }
  }

  lemma {:induction false} AlpnUndoesBody(ps: seq<Data>)
    requires (forall i :: 0 <= i < |ps| ==> |ps[i]| < 256) && |AlpnBody(ps)| < 0x1_0000
    ensures AlpnHasH2(AlpnBody(ps)) <==> H2 in ps
  {
    PutU16Exact(|ProtoList(ps)|);
    ListBehind(PutU16(|ProtoList(ps)|), ProtoList(ps));
    OffersUndoesList(ps);
  }

  lemma {:induction false} ListBehind(l: Data, list: Data)
    requires |l| == 2 && U16(l[0], l[1]) == |list|
    ensures AlpnHasH2(l + list) <==> OffersH2(list)
  {
    assert (l + list)[2..2 + |list|] == list;
  }

  lemma {:induction false} BodiesAreShorter(es: seq<Ext>, i: nat)
    requires i < |es|
    ensures |es[i].body| + 4 <= |AllExts(es)|
  {
    if i > 0 {
      BodiesAreShorter(es[1..], i - 1);
    }
  }

  /** The lengths fit their fields: protocols in a byte, the extension block and the suites in sixteen bits. */
  ghost predicate WithinLimits(fp: Fingerprint, sni: Data, key: Data, alpn: seq<Data>) {
    && |fp.suites| * 2 < 0x1_0000
    && (forall i :: 0 <= i < |alpn| ==> |alpn[i]| < 256)
    && |AllExts(Extensions(fp, sni, key, alpn))| < 0x1_0000
  }

  lemma ExtensionsFit(fp: Fingerprint, sni: Data, key: Data, alpn: seq<Data>)
    requires |AllExts(Extensions(fp, sni, key, alpn))| < 0x1_0000
    ensures Fits(Extensions(fp, sni, key, alpn))
  {
    var es := Extensions(fp, sni, key, alpn);
    forall i | 0 <= i < |es| ensures es[i].typ < 0x1_0000 && |es[i].body| < 0x1_0000 {
      BodiesAreShorter(es, i);
    }
  }

  lemma ThroughExtensions(
      utf8: Data -> bool, fp: Fingerprint, sni: Data, key: Data, alpn: seq<Data>)
    requires WithinLimits(fp, sni, key, alpn) && utf8(sni)
    ensures Through(utf8, Extensions(fp, sni, key, alpn), (None, false)) ==
            (if sni == [] then None else Some(sni), H2 in Effective(alpn))
  {
    ExtensionsInOrder(fp, sni, key, alpn);
    MostAreQuiet(fp, key);
    ThroughAll(utf8, sni, Leading(fp), Effective(alpn), Middle(fp) + Trailing(key));
  }

  lemma MostAreQuiet(fp: Fingerprint, key: Data)
    ensures Quiet(Leading(fp)) && Quiet(Middle(fp) + Trailing(key))
  {
  }

  lemma ThroughAll(utf8: Data -> bool, sni: Data, leading: seq<Ext>, ps: seq<Data>, tail: seq<Ext>)
    requires utf8(sni) && (sni != [] ==> |SniBody(sni)| < 0x1_0000) && Quiet(leading) && Quiet(tail)
    requires (forall i :: 0 <= i < |ps| ==> |ps[i]| < 256) && |AlpnBody(ps)| < 0x1_0000
    ensures var es := (if sni == [] then [] else [Ext(0, SniBody(sni))])
                      + (leading + ([Ext(0x0010, AlpnBody(ps))] + tail));
      Through(utf8, es, (None, false)) == (if sni == [] then None else Some(sni), H2 in ps)
  {
    var rest := [Ext(0x0010, AlpnBody(ps))] + tail;
    ThroughName(utf8, sni, leading + rest, (None, false));
    var seen: (Option<Data>, bool) := (if sni == [] then None else Some(sni), false);
    ThroughQuiet(utf8, leading, rest, seen);
    ThroughAlpn(utf8, ps, tail, seen);
  }

  lemma ExtensionsInOrder(fp: Fingerprint, sni: Data, key: Data, alpn: seq<Data>)
    requires |AllExts(Extensions(fp, sni, key, alpn))| < 0x1_0000
    ensures Extensions(fp, sni, key, alpn) ==
            (if sni == [] then [] else [Ext(0, SniBody(sni))])
            + (Leading(fp) + ([Ext(0x0010, AlpnBody(Effective(alpn)))] + (Middle(fp) + Trailing(key))))
    ensures |AlpnBody(Effective(alpn))| < 0x1_0000 && (sni != [] ==> |SniBody(sni)| < 0x1_0000)
  {
    var es := Extensions(fp, sni, key, alpn);
    var k := if sni == [] then 5 else 6;
    assert es[k] == Ext(0x0010, AlpnBody(Effective(alpn)));
    BodiesAreShorter(es, k);
    if sni != [] {
      assert es[0] == Ext(0, SniBody(sni));
      BodiesAreShorter(es, 0);
    }
  }

  lemma ThroughName(utf8: Data -> bool, sni: Data, more: seq<Ext>, seen: (Option<Data>, bool))
    requires utf8(sni) && (sni != [] ==> |SniBody(sni)| < 0x1_0000) && !seen.1
    ensures Through(utf8, (if sni == [] then [] else [Ext(0, SniBody(sni))]) + more, seen) ==
            Through(utf8, more, (if sni == [] then seen.0 else Some(sni), false))
  {
    if sni == [] {
      assert [] + more == more;
    } else {
      var es := [Ext(0, SniBody(sni))] + more;
      assert es[0] == Ext(0, SniBody(sni)) && es[1..] == more;
      SniUndoesBody(utf8, sni);
    }
  }

  lemma {:induction false} ThroughAlpn(utf8: Data -> bool, ps: seq<Data>, tail: seq<Ext>, seen: (Option<Data>, bool))
    requires (forall i :: 0 <= i < |ps| ==> |ps[i]| < 256) && |AlpnBody(ps)| < 0x1_0000
    requires Quiet(tail) && !seen.1
    ensures Through(utf8, [Ext(0x0010, AlpnBody(ps))] + tail, seen) == (seen.0, H2 in ps)
  {
    AlpnUndoesBody(ps);
    var es := [Ext(0x0010, AlpnBody(ps))] + tail;
    assert es[0] == Ext(0x0010, AlpnBody(ps)) && es[1..] == tail && tail + [] == tail;
    var both := (seen.0, H2 in ps);
    if !(both.0.Some? && both.1) {
      ThroughQuiet(utf8, tail, [], both);
    }
  }

  /** For every random, session id, server name, key and protocol list within the limits, and whatever the
      fingerprint: the sniffer reports exactly the name, and HTTP/2 exactly when the configured protocols contain
      h2 or there are none; without a name it reports nothing. */
  lemma SnifferSeesWhatWasBuilt(
      utf8: Data -> bool, fp: Fingerprint, random: Data, session: Data, sni: Data, key: Data, alpn: seq<Data>)
    requires |random| == 32 && |session| == 32 && WithinLimits(fp, sni, key, alpn) && utf8(sni)
    ensures Sniffed(utf8, Hello(fp, random, session, sni, key, alpn)) ==
            if sni == [] then None else Some(SniffResult(sni, alpn == [] || ['h' as int, '2' as int] in alpn))
  {
    var es := Extensions(fp, sni, key, alpn);
    BlockOfHello(fp, random, session, sni, key, alpn);
    ExtensionsFit(fp, sni, key, alpn);
    ScanUndoesAllExts(utf8, es, (None, false));
    ThroughExtensions(utf8, fp, sni, key, alpn);
  }

  // ----- the rest of the record, as a server reads it -----

  lemma RecordIsFramed(contentType: Byte, payload: Data)
    requires |payload| < 0x1_0000
    ensures var r := WrapRecord(contentType, payload);
      |r| == 5 + |payload| && r[0] == contentType && U16(r[3], r[4]) == |payload| && r[5..] == payload
  {
    PutU16Exact(|payload|);
    var len := PutU16(|payload|);
    assert WrapRecord(contentType, payload) == [contentType, 3, 1, len[0], len[1]] + payload;
  }

  lemma ThreeBytes(n: nat)
    requires n < 0x100_0000
    ensures n / 0x1_0000 % 256 * 0x1_0000 + U16(n / 0x100 % 256, n % 256) == n
  {
  }

  lemma HandshakeIsFramed(body: Data)
    requires |body| < 0x100_0000
    ensures var h := WrapHandshake(body);
      |h| == 4 + |body| && h[0] == 1 && h[1] * 0x1_0000 + U16(h[2], h[3]) == |body| && h[4..] == body
  {
    ThreeBytes(|body|);
  }

  /** The fields in front of the cipher suites stand at fixed places. */
  lemma BodyInPlace(random: Data, session: Data, more: Data)
    requires |random| == |session| == 32
    ensures var b := [3, 3] + random + [32] + session + more;
      b[..2] == [3, 3] && b[2..34] == random && b[34] == 32 && b[35..67] == session && b[67..] == more
  {
  }

  lemma BodyIs(fp: Fingerprint, random: Data, session: Data, sni: Data, key: Data, alpn: seq<Data>)
    ensures var exts := AllExts(Extensions(fp, sni, key, alpn));
      var suites := PutU16(|fp.suites| * 2) + U16s(fp.suites);
      HelloBody(fp, random, session, sni, key, alpn) ==
      [3, 3] + random + [32] + session + (suites + ([1, 0] + PutU16(|exts|) + exts))
  {
    var exts := AllExts(Extensions(fp, sni, key, alpn));
    Tail([3, 3] + random + [32] + session, PutU16(|fp.suites| * 2), U16s(fp.suites), [1, 0], PutU16(|exts|), exts);
  }

  lemma Tail(a: Data, b: Data, c: Data, d: Data, e: Data, f: Data)
    ensures a + b + c + d + e + f == a + (b + c + (d + e + f))
  {
  }

  lemma {:induction false} U16sAt(ns: seq<nat>, i: nat)
    requires i < |ns| && ns[i] < 0x1_0000
    ensures 2 * i + 1 < |U16s(ns)| && U16(U16s(ns)[2 * i], U16s(ns)[2 * i + 1]) == ns[i]
  {
    if i == 0 {
      PutU16Exact(ns[0]);
    } else {
      U16sAt(ns[1..], i - 1);
      var rest := U16s(ns[1..]);
      assert U16s(ns)[2 * i] == rest[2 * (i - 1)] && U16s(ns)[2 * i + 1] == rest[2 * (i - 1) + 1];
    }
  }

  /** A key share of section 4.2.8 of RFC 8446: one entry for x25519 that holds the key. */
  lemma KeyShareHoldsKey(fp: Fingerprint, sni: Data, key: Data, alpn: seq<Data>)
    requires |key| == 32
    ensures var b := KeyShareBody(key);
      && Ext(0x0033, b) in Extensions(fp, sni, key, alpn)
      && |b| >= 6 && U16(b[0], b[1]) == |b| - 2 && U16(b[2], b[3]) == 0x001d
      && U16(b[4], b[5]) == |b| - 6 && b[6..] == key
  {
    PutU16Exact(36);
    PutU16Exact(0x001d);
    PutU16Exact(32);
    var a, g, n := PutU16(36), PutU16(0x001d), PutU16(32);
    assert KeyShareBody(key) == [a[0], a[1], g[0], g[1], n[0], n[1]] + key;
    assert Trailing(key)[0] == Ext(0x0033, KeyShareBody(key));
  }

  /** Both lengths of a built record are those of what follows them, and the random and the session id, which
      carries the REALITY authentication, stand where a server takes them from. */
  lemma HelloIsFramed(fp: Fingerprint, random: Data, session: Data, sni: Data, key: Data, alpn: seq<Data>)
    requires |random| == |session| == 32 && |HelloBody(fp, random, session, sni, key, alpn)| + 4 < 0x1_0000
    ensures var r := Hello(fp, random, session, sni, key, alpn);
      && |r| >= 76 && r[0] == 0x16 && U16(r[3], r[4]) == |r| - 5
      && r[5] == 1 && r[6] * 0x1_0000 + U16(r[7], r[8]) == |r| - 9
      && r[11..43] == random && r[43] == 32 && r[44..76] == session
  {
    var body := HelloBody(fp, random, session, sni, key, alpn);
    BodyIs(fp, random, session, sni, key, alpn);
    var exts := AllExts(Extensions(fp, sni, key, alpn));
    var more := PutU16(|fp.suites| * 2) + U16s(fp.suites) + ([1, 0] + PutU16(|exts|) + exts);
    BodyInPlace(random, session, more);
    HandshakeIsFramed(body);
    RecordIsFramed(0x16, WrapHandshake(body));
    NineFurther(Hello(fp, random, session, sni, key, alpn), WrapHandshake(body), body);
  }

  lemma BehindTheSession(fp: Fingerprint, random: Data, session: Data, sni: Data, key: Data, alpn: seq<Data>)
    returns (rest: Data)
    requires |random| == |session| == 32 && |HelloBody(fp, random, session, sni, key, alpn)| + 4 < 0x1_0000
    ensures var r := Hello(fp, random, session, sni, key, alpn);
      |r| >= 76 && r[76..] == PutU16(|fp.suites| * 2) + U16s(fp.suites) + rest
  {
    var body := HelloBody(fp, random, session, sni, key, alpn);
    BodyIs(fp, random, session, sni, key, alpn);
    var exts := AllExts(Extensions(fp, sni, key, alpn));
    rest := [1, 0] + PutU16(|exts|) + exts;
    BodyInPlace(random, session, PutU16(|fp.suites| * 2) + U16s(fp.suites) + rest);
    HandshakeIsFramed(body);
    RecordIsFramed(0x16, WrapHandshake(body));
    FurtherBehind(Hello(fp, random, session, sni, key, alpn), WrapHandshake(body), body);
  }

  lemma FurtherBehind(r: Data, h: Data, body: Data)
    requires |r| >= 5 && r[5..] == h && |h| >= 4 && h[4..] == body && |body| >= 67
    ensures |r| >= 76 && r[76..] == body[67..]
  {
  }

  /** The suites offered stand behind the session id and twice their number. */
  lemma SuitesInPlace(fp: Fingerprint, random: Data, session: Data, sni: Data, key: Data, alpn: seq<Data>, i: nat)
    requires |random| == |session| == 32 && |HelloBody(fp, random, session, sni, key, alpn)| + 4 < 0x1_0000
    requires i < |fp.suites| && fp.suites[i] < 0x1_0000 && |fp.suites| * 2 < 0x1_0000
    ensures var r := Hello(fp, random, session, sni, key, alpn);
      |r| >= 80 + 2 * i && U16(r[76], r[77]) == 2 * |fp.suites| && U16(r[78 + 2 * i], r[79 + 2 * i]) == fp.suites[i]
  {
    var rest := BehindTheSession(fp, random, session, sni, key, alpn);
    PutU16Exact(|fp.suites| * 2);
    U16sAt(fp.suites, i);
    SuiteBehind(Hello(fp, random, session, sni, key, alpn), PutU16(|fp.suites| * 2), U16s(fp.suites), rest, 2 * i);
  }

  lemma SuiteBehind(r: Data, len: Data, suites: Data, rest: Data, k: nat)
    requires |r| >= 76 && r[76..] == len + suites + rest && |len| == 2 && k + 1 < |suites|
    ensures |r| >= 80 + k && r[76] == len[0] && r[77] == len[1] && r[78 + k] == suites[k] && r[79 + k] == suites[k + 1]
  {
    var tail := r[76..];
    assert r[76] == tail[0] && r[77] == tail[1] && r[78 + k] == tail[2 + k] && r[79 + k] == tail[3 + k];
  }

  lemma NineFurther(r: Data, h: Data, body: Data)
    requires |r| >= 5 && r[5..] == h && |h| >= 4 && h[4..] == body && |body| >= 67
    ensures |r| == |body| + 9 && r[5] == h[0] && r[6] == h[1] && r[7] == h[2] && r[8] == h[3]
    ensures r[11..43] == body[2..34] && r[43] == body[34] && r[44..76] == body[35..67]
  {
    assert r[9..] == body;
    assert forall i :: 0 <= i < 4 ==> r[5 + i] == h[i];
    assert r[43] == r[9..][34];
  }
}
