/** DNS messages on the wire (section 4.1 of RFC 1035): the walkers that skip names and records and look for
    the lifetime a response is cached for.  Every walker is defined on arbitrary bytes. */
module DnsWire {
  import opened Bytes

  // ----- skipping names and records -----

  /** `skip_name`: labels up to a zero byte or a pointer. */
  function SkipName(m: Data, pos: nat): (r: Option<nat>)
    ensures r.Some? ==> r.value > pos
    decreases |m| - pos
  {
    if pos >= |m| then None
    else if m[pos] == 0 then Some(pos + 1)
    else if m[pos] >= 0xC0 then Some(pos + 2)
    else SkipName(m, pos + 1 + Num(m[pos]))
  }

  method SkipNameLoop(m: Data, start: nat) returns (r: Option<nat>)
    ensures r == SkipName(m, start)
  {
    var pos := start;
    while true
      invariant SkipName(m, pos) == SkipName(m, start)
      decreases |m| - pos
    {
      if pos >= |m| {
        return None;
      }
      var l := Num(m[pos]);
      if l == 0 {
        return Some(pos + 1);
      }
      if l >= 0xC0 {
        return Some(pos + 2);
      }
      pos := pos + 1 + l;
    }
  }

  /** The owner name of an answer as `extract_min_ttl` and `extract_first_ip` skip it: a pointer is recognised
      only in first place. */
  function SkipOwner(m: Data, pos: nat): (r: Option<nat>)
    requires pos < |m|
    ensures r.Some? ==> r.value > pos
  {
    if m[pos] >= 0xC0 then Some(pos + 2) else SkipLabels(m, pos)
  }

  function SkipLabels(m: Data, pos: nat): (r: Option<nat>)
    ensures r.Some? ==> r.value > pos
    decreases |m| - pos
  {
    if pos >= |m| then None
    else if m[pos] == 0 then Some(pos + 1)
    else SkipLabels(m, pos + 1 + Num(m[pos]))
  }

  method SkipOwnerLoop(m: Data, start: nat) returns (r: Option<nat>)
    requires start < |m|
    ensures r == SkipOwner(m, start)
  {
    if m[start] >= 0xC0 {
      return Some(start + 2);
    }
    var pos := start;
    while true
      invariant SkipLabels(m, pos) == SkipLabels(m, start)
      decreases |m| - pos
    {
      if pos >= |m| {
        return None;
      }
      var l := Num(m[pos]);
      if l == 0 {
        return Some(pos + 1);
      }
      pos := pos + 1 + l;
    }
  }

  function At16(m: Data, p: nat): (n: nat)
    requires p + 2 <= |m|
    ensures n < 0x1_0000
  {
    U16(m[p], m[p + 1])
  }

  function At32(m: Data, p: nat): nat
    requires p + 4 <= |m|
  {
    U32(m[p], m[p + 1], m[p + 2], m[p + 3])
  }

  /** `skip_rr`. */
  function SkipRr(m: Data, pos: nat): (r: Option<nat>)
    ensures r.Some? ==> r.value > pos
  {
    var p := SkipName(m, pos);
    if p.None? || p.value + 10 > |m| then None else Some(p.value + 10 + At16(m, p.value + 8))
  }

  /** The end of the question section: the name and four more bytes. */
  function QuestionEnd(m: Data): Option<nat> {
    var p := SkipName(m, 12);
    if p.None? then None else Some(p.value + 4)
  }

  // ----- lifetimes -----

  const NO_TTL := 0xFFFF_FFFF

  /** The least lifetime of the next `n` answers and `least`; running out of bytes ends the scan, an owner name
      that runs out fails it. */
  function LeastTtl(m: Data, pos: nat, n: nat, least: nat): Option<nat>
    decreases n
  {
    if n == 0 || pos >= |m| then Some(least) else
      var p := SkipOwner(m, pos);
      if p.None? then None
      else if p.value + 10 > |m| then Some(least)
      else LeastTtl(m, p.value + 10 + At16(m, p.value + 8), n - 1, Min(At32(m, p.value + 4), least))
  }

  /** `extract_min_ttl`. */
  function MinTtl(m: Data): Option<nat> {
    if |m| < 12 || At16(m, 6) == 0 then None else
      var q := QuestionEnd(m);
      if q.None? then None else
        var least := LeastTtl(m, q.value, At16(m, 6), NO_TTL);
        if least.None? || least.value == NO_TTL then None else least
  }

  function SkipRrs(m: Data, pos: nat, n: nat): Option<nat>
    decreases n
  {
    if n == 0 then Some(pos) else
      var p := SkipRr(m, pos);
      if p.None? then None else SkipRrs(m, p.value, n - 1)
  }

  /** The first SOA among the next `n` records: the smaller of its lifetime and its MINIMUM field. */
  function SoaIn(m: Data, pos: nat, n: nat): Option<nat>
    decreases n
  {
    if n == 0 then None else
      var p := SkipName(m, pos);
      if p.None? || p.value + 10 > |m| then None
      else if At16(m, p.value) == 6 then
        var a := SkipName(m, p.value + 10);
        if a.None? then None else
          var b := SkipName(m, a.value);
          if b.None? || b.value + 20 > |m| then None
          else Some(Min(At32(m, p.value + 4), At32(m, b.value + 16)))
      else
        var next := SkipRr(m, pos);
        if next.None? then None else SoaIn(m, next.value, n - 1)
  }

  /** `extract_soa_ttl`. */
  function SoaTtl(m: Data): Option<nat> {
    if |m| < 12 || At16(m, 8) == 0 then None else
      var q := QuestionEnd(m);
      if q.None? then None else
        var a := SkipRrs(m, q.value, At16(m, 6));
        if a.None? then None else SoaIn(m, a.value, At16(m, 8))
  }

  /** `extract_min_ttl_or_negative`. */
  function CacheTtl(m: Data): Option<nat> {
    if |m| < 12 then None
    else if (m[3] % 16 == 0 || m[3] % 16 == 3) && At16(m, 6) == 0 then
      var soa := SoaTtl(m);
      Some(Min(if soa.Some? then soa.value else 300, 300))
    else MinTtl(m)
  }

  method ExtractMinTtl(m: Data) returns (r: Option<nat>)
    ensures r == MinTtl(m)
  {
    if |m| < 12 {
      return None;
    }
    var ancount := At16(m, 6);
    if ancount == 0 {
      return None;
    }
    var q := SkipNameLoop(m, 12);
    if q.None? {
      return None;
    }
    var pos: nat := q.value + 4;
    var least: nat := NO_TTL;
    var i := 0;
    while i < ancount
      invariant 0 <= i <= ancount
      invariant LeastTtl(m, pos, ancount - i, least) == LeastTtl(m, q.value + 4, ancount, NO_TTL)
    {
      if pos >= |m| {
        break;
      }
      var p := SkipOwnerLoop(m, pos);
      if p.None? {
        return None;
      }
      pos := p.value;
      if pos + 10 > |m| {
        break;
      }
      var ttl := At32(m, pos + 4);
      pos := pos + 10 + At16(m, pos + 8);
      least := Min(ttl, least);
      i := i + 1;
    }
    r := if least == NO_TTL then None else Some(least);
  }

  method SkipRrLoop(m: Data, pos: nat) returns (r: Option<nat>)
    ensures r == SkipRr(m, pos)
  {
    var p := SkipNameLoop(m, pos);
    if p.None? || p.value + 10 > |m| {
      return None;
    }
    r := Some(p.value + 10 + At16(m, p.value + 8));
  }

  method ExtractSoaTtl(m: Data) returns (r: Option<nat>)
    ensures r == SoaTtl(m)
  {
    if |m| < 12 || At16(m, 8) == 0 {
      return None;
    }
    var nscount, ancount := At16(m, 8), At16(m, 6);
    var q := SkipNameLoop(m, 12);
    if q.None? {
      return None;
    }
    var authority := SkipRrsLoop(m, q.value + 4, ancount);
    if authority.None? {
      return None;
    }
    r := FindSoa(m, authority.value, nscount);
  }

  method SkipRrsLoop(m: Data, start: nat, n: nat) returns (r: Option<nat>)
    ensures r == SkipRrs(m, start, n)
  {
    var pos: nat := start;
    var i := 0;
    while i < n
      invariant 0 <= i <= n && SkipRrs(m, pos, n - i) == SkipRrs(m, start, n)
    {
      var p := SkipRrLoop(m, pos);
      if p.None? {
        return None;
      }
      pos := p.value;
      i := i + 1;
    }
    r := Some(pos);
  }

  method FindSoa(m: Data, start: nat, n: nat) returns (r: Option<nat>)
    ensures r == SoaIn(m, start, n)
  {
    var pos: nat := start;
    var i := 0;
    while i < n
      invariant 0 <= i <= n && SoaIn(m, pos, n - i) == SoaIn(m, start, n)
    {
      var rrStart := pos;
      var p := SkipNameLoop(m, pos);
      if p.None? || p.value + 10 > |m| {
        return None;
      }
      if At16(m, p.value) == 6 {
        var a := SkipNameLoop(m, p.value + 10);
        if a.None? {
          return None;
        }
        var b := SkipNameLoop(m, a.value);
        if b.None? || b.value + 20 > |m| {
          return None;
        }
        return Some(Min(At32(m, p.value + 4), At32(m, b.value + 16)));
      }
      var next := SkipRrLoop(m, rrStart);
      if next.None? {
        return None;
      }
      pos := next.value;
      i := i + 1;
    }
    r := None;
  }

  method ExtractMinTtlOrNegative(m: Data) returns (r: Option<nat>)
    ensures r == CacheTtl(m)
  {
    if |m| < 12 {
      return None;
    }
    var rcode := m[3] % 16;
    if (rcode == 0 || rcode == 3) && At16(m, 6) == 0 {
      var soa := ExtractSoaTtl(m);
      return Some(Min(if soa.Some? then soa.value else 300, 300));
    }
    r := ExtractMinTtl(m);
  }

  /** `is_cacheable_or_negative`. */
  predicate Cacheable(m: Data) {
    |m| >= 12 &&
    var rcode := m[3] % 16;
    (rcode == 0 && At16(m, 6) > 0) || ((rcode == 0 || rcode == 3) && SoaTtl(m).Some?)
  }

  // ----- encoded messages -----

  /** Labels ended by a zero byte, or by a pointer. */
  datatype Name = Name(labels: seq<Data>, pointer: Option<(Byte, Byte)>)

  /** Labels are non-empty and short enough not to look like a pointer. */
  predicate ProperLabels(ls: seq<Data>) { forall i :: 0 <= i < |ls| ==> 1 <= |ls[i]| < 0xC0 }

  predicate ProperName(n: Name) { ProperLabels(n.labels) && (n.pointer.Some? ==> n.pointer.value.0 >= 0xC0) }

  /** All labels, or nothing but a pointer. */
  predicate ProperOwner(n: Name) { ProperName(n) && (n.pointer.None? || n.labels == []) }

  function LabelBytes(ls: seq<Data>): Data {
    if ls == [] then [] else ([|ls[0]| % 256] + ls[0]) + LabelBytes(ls[1..])
  }

  function NameBytes(n: Name): Data {
    LabelBytes(n.labels) + if n.pointer.Some? then [n.pointer.value.0, n.pointer.value.1] else [0]
  }
}
