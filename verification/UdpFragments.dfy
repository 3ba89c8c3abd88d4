/** Hysteria2 UDP datagrams: cutting a payload into fragments and putting fragments back together. */
module UdpFragments {
  import opened Bytes
  import opened Varint

  const MAX_DATAGRAM_PAYLOAD := 1100

  // ----- sending -----

  /** Session, packet and fragment numbers in fixed width. */
  function Fixed(session: nat, packet: nat, fragId: nat, fragCount: nat): (s: Data)
    ensures |s| == 8
    ensures U32(s[0], s[1], s[2], s[3]) == session % 0x1_0000_0000 && U16(s[4], s[5]) == packet % 0x1_0000
    ensures s[6] == fragId % 256 && s[7] == fragCount % 256
  {
    var a, b := PutU32(session), PutU16(packet);
    PutU16Value(packet);
    [a[0], a[1], a[2], a[3], b[0], b[1], fragId % 256, fragCount % 256]
  }

  /** The fixed part, then the address behind its length. */
  function Header(session: nat, packet: nat, fragId: nat, fragCount: nat, addr: Data): (h: Data)
    ensures |h| == Overhead(addr)
  {
    Fixed(session, packet, fragId, fragCount) + WriteVarint(|addr|) + addr
  }

  function Overhead(addr: Data): nat { 8 + |WriteVarint(|addr|)| + |addr| }

  /** Room for payload in one datagram, at least one byte. */
  function ChunkSize(addr: Data): (n: nat)
    ensures n >= 1
  {
    var room := MAX_DATAGRAM_PAYLOAD - Overhead(addr);
    if room >= 1 then room else 1
  }

  /** `slice::chunks`. */
  function Pieces(data: Data, size: nat): (ps: seq<Data>)
    requires size >= 1
    ensures Concat(ps) == data
    ensures forall i :: 0 <= i < |ps| ==> 1 <= |ps[i]| <= size
    decreases |data|
  {
    if data == [] then [] else
      var n := if size <= |data| then size else |data|;
      assert data[..n] + data[n..] == data;
      [data[..n]] + Pieces(data[n..], size)
  }

  /** The `i`-th datagram of a message in `n` fragments; both numbers are cut to a byte. */
  function Datagram(session: nat, packet: nat, addr: Data, chunks: seq<Data>, i: nat): Data
    requires i < |chunks|
  {
    Header(session, packet, i, |chunks|, addr) + chunks[i]
  }

  function Datagrams(session: nat, packet: nat, addr: Data, chunks: seq<Data>): seq<Data> {
    seq(|chunks|, i requires 0 <= i < |chunks| => Datagram(session, packet, addr, chunks, i))
  }

  method SendUdpFragmented(session: nat, addr: Data, data: Data, packet: nat) returns (sent: seq<Data>)
    ensures sent == Datagrams(session, packet, addr, Pieces(data, ChunkSize(addr)))
  {
    var chunks := Pieces(data, ChunkSize(addr));
    sent := [];
    var fragId := 0;
    ghost var all := Datagrams(session, packet, addr, chunks);
    while fragId < |chunks|
      invariant 0 <= fragId <= |chunks| && |all| == |chunks| && sent == all[..fragId]
    {
      DatagramAt(session, packet, addr, chunks, fragId);
      OneFurther(all, fragId);
      sent := sent + [Datagram(session, packet, addr, chunks, fragId)];
      fragId := fragId + 1;
    }
  }

  lemma DatagramAt(session: nat, packet: nat, addr: Data, chunks: seq<Data>, i: nat)
    requires i < |chunks|
    ensures Datagrams(session, packet, addr, chunks)[i] == Datagram(session, packet, addr, chunks, i)
  {
  }

  lemma OneFurther(s: seq<Data>, i: nat)
    requires i < |s|
    ensures s[..i + 1] == s[..i] + [s[i]]
  {
  }

  lemma {:induction false} AllButTheLastAreFull(data: Data, size: nat, i: nat)
    requires size >= 1 && i < |Pieces(data, size)| - 1
    ensures |Pieces(data, size)[i]| == size
    decreases i
  {
    if size < |data| && i > 0 {
      AllButTheLastAreFull(data[size..], size, i - 1);
    }
  }

  /** No datagram exceeds 1100 bytes, and all but the last are exactly as long, provided the header alone is shorter;
      behind a longer header each carries one byte. */
  lemma {:induction false} DatagramFits(session: nat, packet: nat, addr: Data, data: Data, i: nat)
    requires i < |Pieces(data, ChunkSize(addr))|
    ensures var chunks := Pieces(data, ChunkSize(addr));
      var n := |Datagram(session, packet, addr, chunks, i)|;
      if Overhead(addr) < 1100 then n <= 1100 && (i < |chunks| - 1 ==> n == 1100) else |chunks[i]| == 1
  {
    if i < |Pieces(data, ChunkSize(addr))| - 1 {
      AllButTheLastAreFull(data, ChunkSize(addr), i);
    }
  }

  // ----- parsing -----

  datatype Fragment = Fragment(payload: Data, fragId: Byte, fragCount: Byte, session: nat, packet: nat)

  /** `parse_udp_frag_header`; the address is skipped. */
  function ParseFragment(b: Data): Option<Fragment> {
    if |b| < 9 then None else
      var len := DecodeSlice(b[8..]);
      if len.None? then None else
        var cur := 8 + len.value.1 + len.value.0;
        if |b| < cur then None else
          Some(Fragment(b[cur..], b[6], b[7], U32(b[0], b[1], b[2], b[3]), U16(b[4], b[5])))
  }

  lemma ParseUndoesHeader(
      session: nat, packet: nat, fragId: nat, fragCount: nat, addr: Data, payload: Data)
    requires session < 0x1_0000_0000 && packet < 0x1_0000 && |addr| < MAX_VARINT
    ensures ParseFragment(Header(session, packet, fragId, fragCount, addr) + payload) ==
            Some(Fragment(payload, fragId % 256, fragCount % 256, session, packet))
  {
    var fixed, v := Fixed(session, packet, fragId, fragCount), WriteVarint(|addr|);
    DecodeUndoesWrite(|addr|, addr + payload);
    ParsePieces(fixed, v, addr, payload);
  }

  lemma ParsePieces(fixed: Data, v: Data, addr: Data, payload: Data)
    requires |fixed| == 8 && v != [] && DecodeSlice(v + (addr + payload)) == Some((|addr|, |v|))
    ensures ParseFragment(fixed + v + addr + payload) ==
            Some(Fragment(payload, fixed[6], fixed[7],
                          U32(fixed[0], fixed[1], fixed[2], fixed[3]), U16(fixed[4], fixed[5])))
  {
    var b := fixed + v + addr + payload;
    FourPieces(fixed, v, addr, payload);
    assert b[8..] == v + (addr + payload);
    assert b[8 + |v| + |addr|..] == payload;
    assert b[..8] == fixed;
    assert forall i :: 0 <= i < 8 ==> b[i] == fixed[i];
  }

  /** The address behind the fixed part, as a receiver that wants it reads it. */
  function AddressIn(b: Data): Option<Data> {
    if |b| < 9 then None else
      var len := DecodeSlice(b[8..]);
      if len.None? || |b| < 8 + len.value.1 + len.value.0 then None else
        Some(b[8 + len.value.1..8 + len.value.1 + len.value.0])
  }

  lemma AddressInPieces(fixed: Data, v: Data, addr: Data, payload: Data)
    requires |fixed| == 8 && v != [] && DecodeSlice(v + (addr + payload)) == Some((|addr|, |v|))
    ensures AddressIn(fixed + v + addr + payload) == Some(addr)
  {
    var b := fixed + v + addr + payload;
    FourPieces(fixed, v, addr, payload);
    assert b[8..] == v + (addr + payload);
    assert b[8 + |v|..8 + |v| + |addr|] == addr;
  }

  /** Every datagram of a message, not only the first, carries the address. */
  lemma EveryDatagramCarriesAddress(session: nat, packet: nat, addr: Data, chunks: seq<Data>, i: nat)
    requires i < |chunks| && |addr| < MAX_VARINT
    ensures AddressIn(Datagrams(session, packet, addr, chunks)[i]) == Some(addr)
  {
    DecodeUndoesWrite(|addr|, addr + chunks[i]);
    AddressInPieces(Fixed(session, packet, i, |chunks|), WriteVarint(|addr|), addr, chunks[i]);
  }

  lemma FourPieces(a: Data, b: Data, c: Data, d: Data)
    ensures a + b + c + d == a + (b + (c + d))
  {
  }

  // ----- receiving -----

  /** What the connection yields while waiting: a datagram, or an error or the deadline. */
  datatype Arrival = Got(bytes: Data) | Gone

  /** `OutOfBounds` is the index panic on a first fragment whose number is not below its count. */
  datatype Received = Malformed | OutOfBounds | Nothing | Payload(data: Data)

  type Slots = seq<Option<Data>>

  function Filled(frags: Slots): nat {
    if frags == [] then 0 else (if frags[0].Some? then 1 else 0) + Filled(frags[1..])
  }

  function Joined(frags: Slots): Data {
    if frags == [] then [] else (if frags[0].Some? then frags[0].value else []) + Joined(frags[1..])
  }

  /** The slots after one more datagram: only an unfilled slot of this very message is filled. */
  function Accept(frags: Slots, d: Data, session: nat, packet: nat): Slots {
    var f := ParseFragment(d);
    if f.Some? && f.value.session == session && f.value.packet == packet && f.value.fragCount == |frags|
       && f.value.fragId < |frags| && frags[f.value.fragId].None?
    then frags[f.value.fragId := Some(f.value.payload)] else frags
  }

  function Gather(frags: Slots, arrivals: seq<Arrival>, session: nat, packet: nat): Received
    decreases |arrivals|
  {
    if Filled(frags) >= |frags| then Payload(Joined(frags))
    else if arrivals == [] || arrivals[0].Gone? then Nothing
    else Gather(Accept(frags, arrivals[0].bytes, session, packet), arrivals[1..], session, packet)
  }

  function Empty(n: nat): Slots { seq(n, _ => None) }

  function Reassemble(first: Data, arrivals: seq<Arrival>): Received {
    var f := ParseFragment(first);
    if f.None? then Malformed
    else if f.value.fragCount == 1 then Payload(f.value.payload)
    else if f.value.fragId >= f.value.fragCount then OutOfBounds
    else Gather(Empty(f.value.fragCount)[f.value.fragId := Some(f.value.payload)],
                arrivals, f.value.session, f.value.packet)
  }

  lemma {:induction false} FilledUpdate(frags: Slots, i: nat, d: Data)
    requires i < |frags|
    ensures Filled(frags[i := Some(d)]) == Filled(frags) + if frags[i].None? then 1 else 0
  {
    if i == 0 {
      assert frags[i := Some(d)][1..] == frags[1..];
    } else {
      assert frags[i := Some(d)][1..] == frags[1..][i - 1 := Some(d)];
      FilledUpdate(frags[1..], i - 1, d);
    }
  }

  lemma {:induction false} FilledEmpty(n: nat)
    ensures Filled(Empty(n)) == 0
  {
    if n > 0 {
      assert Empty(n)[1..] == Empty(n - 1);
      FilledEmpty(n - 1);
    }
  }

  method TakeIn(frags: Slots, received: nat, d: Data, session: nat, packet: nat) returns (frags': Slots, received': nat)
    requires received == Filled(frags)
    ensures frags' == Accept(frags, d, session, packet) && received' == Filled(frags')
  {
    frags', received' := frags, received;
    var g := ParseFragment(d);
    if g.Some? && g.value.session == session && g.value.packet == packet && g.value.fragCount == |frags| {
      var idx := g.value.fragId;
      if idx < |frags| && frags[idx].None? {
        FilledUpdate(frags, idx, g.value.payload);
        frags' := frags[idx := Some(g.value.payload)];
        received' := received + 1;
      }
    }
  }

  method RecvUdpReassemble(first: Data, arrivals: seq<Arrival>) returns (r: Received)
    ensures r == Reassemble(first, arrivals)
  {
    var f := ParseFragment(first);
    if f.None? {
      return Malformed;
    }
    var Fragment(payload0, fragId0, fragCount, session, packet) := f.value;
    if fragCount == 1 {
      return Payload(payload0);
    }
    if fragId0 >= fragCount {
      return OutOfBounds;
    }
    FilledEmpty(fragCount);
    FilledUpdate(Empty(fragCount), fragId0, payload0);
    var frags := Empty(fragCount)[fragId0 := Some(payload0)];
    var received := 1;
    var next := 0;
    while received < fragCount
      invariant |frags| == fragCount && received == Filled(frags) && 0 <= next <= |arrivals|
      invariant Gather(frags, arrivals[next..], session, packet) == Reassemble(first, arrivals)
      decreases |arrivals| - next
    {
      if next == |arrivals| || arrivals[next].Gone? {
        return Nothing;
      }
      assert arrivals[next..][0] == arrivals[next] && arrivals[next..][1..] == arrivals[next + 1..];
      frags, received := TakeIn(frags, received, arrivals[next].bytes, session, packet);
      next := next + 1;
    }
    var out := Join(frags);
    r := Payload(out);
  }

  method Join(frags: Slots) returns (out: Data)
    ensures out == Joined(frags)
  {
    out := [];
    var i := 0;
    while i < |frags|
      invariant 0 <= i <= |frags| && out + Joined(frags[i..]) == Joined(frags)
    {
      assert frags[i..][1..] == frags[i + 1..];
      if frags[i].Some? {
        assert out + (frags[i].value + Joined(frags[i + 1..])) == (out + frags[i].value) + Joined(frags[i + 1..]);
        out := out + frags[i].value;
      }
      i := i + 1;
    }
    assert frags[i..] == [] && out + [] == out;
  }

  // ----- delivery in any order -----

  /** The datagrams that arrive before the first error or deadline. */
  function InTime(arrivals: seq<Arrival>): set<Data> {
    if arrivals == [] || arrivals[0].Gone? then {} else {arrivals[0].bytes} + InTime(arrivals[1..])
  }

  /** A datagram that is not of this message: unreadable, of another session, packet or count, or with a number
      that is not below the count. */
  predicate Foreign(d: Data, session: nat, packet: nat, n: nat) {
    var f := ParseFragment(d);
    || f.None? || f.value.session != session || f.value.packet != packet
    || f.value.fragCount != n || f.value.fragId >= n
  }

  /** The numbers fit their fields. */
  ghost predicate Encodable(session: nat, packet: nat, addr: Data) {
    session < 0x1_0000_0000 && packet < 0x1_0000 && |addr| < MAX_VARINT
  }

  ghost predicate Sendable(session: nat, packet: nat, addr: Data, chunks: seq<Data>) {
    Encodable(session, packet, addr) && 1 <= |chunks| <= 255
  }

  /** Every arrival is one of the message's own datagrams or foreign. */
  ghost predicate NoForgery(session: nat, packet: nat, addr: Data, chunks: seq<Data>, arrivals: seq<Arrival>) {
    forall a :: a in arrivals && a.Got? ==>
      Foreign(a.bytes, session, packet, |chunks| % 256) ||
      exists i :: 0 <= i < |chunks| && a.bytes == Datagram(session, packet, addr, chunks, i)
  }

  /** Each slot is still empty or holds its own chunk. */
  ghost predicate Partial(frags: Slots, chunks: seq<Data>) {
    |frags| == |chunks| && forall i :: 0 <= i < |frags| ==> frags[i] == None || frags[i] == Some(chunks[i])
  }

  lemma OwnDatagram(session: nat, packet: nat, addr: Data, chunks: seq<Data>, i: nat)
    requires Sendable(session, packet, addr, chunks) && i < |chunks|
    ensures ParseFragment(Datagram(session, packet, addr, chunks, i)) ==
            Some(Fragment(chunks[i], i, |chunks|, session, packet))
  {
    var n := |chunks|;
    FitsByte(i);
    FitsByte(n);
    ParseUndoesHeader(session, packet, i, n, addr, chunks[i]);
  }

  lemma FitsByte(i: nat)
    requires i < 256
    ensures i % 256 == i
  {
  }

  lemma {:induction false} FilledCounts(frags: Slots)
    ensures Filled(frags) <= |frags|
    ensures Filled(frags) == |frags| <==> forall i :: 0 <= i < |frags| ==> frags[i].Some?
  {
    if frags != [] {
      FilledCounts(frags[1..]);
      if forall i :: 0 <= i < |frags[1..]| ==> frags[1..][i].Some? {
        forall i | 1 <= i < |frags| ensures frags[i].Some? { assert frags[1..][i - 1].Some?; }
      }
    }
  }

  lemma {:induction false} JoinedWhenFull(frags: Slots, chunks: seq<Data>)
    requires Partial(frags, chunks) && forall i :: 0 <= i < |frags| ==> frags[i].Some?
    ensures Joined(frags) == Concat(chunks)
  {
    if frags != [] {
      JoinedWhenFull(frags[1..], chunks[1..]);
    }
  }

  /** `own` are readable datagrams of one message, in order. */
  ghost predicate Owns(own: seq<Data>, session: nat, packet: nat, chunks: seq<Data>) {
    |own| == |chunks| <= 255 &&
    forall i :: 0 <= i < |own| ==> ParseFragment(own[i]) == Some(Fragment(chunks[i], i, |chunks|, session, packet))
  }

  ghost predicate OwnOrForeign(own: seq<Data>, session: nat, packet: nat, arrivals: seq<Arrival>) {
    forall a :: a in arrivals && a.Got? ==> Foreign(a.bytes, session, packet, |own|) || a.bytes in own
  }

  /** All the fragments still missing arrive in time. */
  ghost predicate Covered(frags: Slots, own: seq<Data>, arrivals: seq<Arrival>)
    requires |frags| == |own|
  {
    forall i :: 0 <= i < |frags| && frags[i].None? ==> own[i] in InTime(arrivals)
  }

  lemma AcceptKeepsCoverage(
      frags: Slots, session: nat, packet: nat, own: seq<Data>, chunks: seq<Data>, arrivals: seq<Arrival>)
    requires Owns(own, session, packet, chunks) && Partial(frags, chunks)
    requires arrivals != [] && arrivals[0].Got? && OwnOrForeign(own, session, packet, arrivals)
    ensures var frags' := Accept(frags, arrivals[0].bytes, session, packet);
      && Partial(frags', chunks)
      && (Covered(frags, own, arrivals) <==> Covered(frags', own, arrivals[1..]))
  {
  }

  lemma {:induction false} GatherExactly(
      frags: Slots, session: nat, packet: nat, own: seq<Data>, chunks: seq<Data>, arrivals: seq<Arrival>)
    requires Owns(own, session, packet, chunks) && Partial(frags, chunks)
    requires OwnOrForeign(own, session, packet, arrivals)
    ensures Gather(frags, arrivals, session, packet) ==
            if Covered(frags, own, arrivals) then Payload(Concat(chunks)) else Nothing
    decreases |arrivals|
  {
    FilledCounts(frags);
    if Filled(frags) >= |frags| {
      JoinedWhenFull(frags, chunks);
    } else if arrivals != [] && arrivals[0].Got? {
      AcceptKeepsCoverage(frags, session, packet, own, chunks, arrivals);
      GatherExactly(Accept(frags, arrivals[0].bytes, session, packet), session, packet, own, chunks, arrivals[1..]);
    }
  }

  lemma OwnDatagrams(
      session: nat, packet: nat, addr: Data, chunks: seq<Data>, arrivals: seq<Arrival>) returns (own: seq<Data>)
    requires Sendable(session, packet, addr, chunks) && NoForgery(session, packet, addr, chunks, arrivals)
    ensures Owns(own, session, packet, chunks) && OwnOrForeign(own, session, packet, arrivals)
    ensures forall i :: 0 <= i < |chunks| ==> own[i] == Datagram(session, packet, addr, chunks, i)
  {
    own := Datagrams(session, packet, addr, chunks);
    forall i | 0 <= i < |own|
      ensures ParseFragment(own[i]) == Some(Fragment(chunks[i], i, |chunks|, session, packet))
    {
      OwnDatagram(session, packet, addr, chunks, i);
    }
    FitsByte(|chunks|);
  }

  /** Every fragment but the first one received arrives in time. */
  ghost predicate Complete(
      session: nat, packet: nat, addr: Data, chunks: seq<Data>, first: nat, arrivals: seq<Arrival>) {
    forall i :: 0 <= i < |chunks| && i != first ==> Datagram(session, packet, addr, chunks, i) in InTime(arrivals)
  }

  /** The fragments of a payload, whichever comes first and in whatever order the rest follow, repeated, and
      mixed with datagrams of other sessions, packets or counts: the payload comes back exactly when every
      fragment is there before the deadline, and otherwise nothing does. */
  lemma {:induction false} ReassembledExactlyWhenComplete(
      session: nat, packet: nat, addr: Data, data: Data, first: nat, arrivals: seq<Arrival>)
    requires var chunks := Pieces(data, ChunkSize(addr));
      && Sendable(session, packet, addr, chunks) && first < |chunks|
      && NoForgery(session, packet, addr, chunks, arrivals)
    ensures var chunks := Pieces(data, ChunkSize(addr));
      var r := Reassemble(Datagram(session, packet, addr, chunks, first), arrivals);
      r == if Complete(session, packet, addr, chunks, first, arrivals) then Payload(data) else Nothing
  {
    ReassembledFromPieces(session, packet, addr, Pieces(data, ChunkSize(addr)), first, arrivals);
  }

  lemma {:induction false} ReassembledFromPieces(
      session: nat, packet: nat, addr: Data, chunks: seq<Data>, first: nat, arrivals: seq<Arrival>)
    requires Sendable(session, packet, addr, chunks) && first < |chunks|
    requires NoForgery(session, packet, addr, chunks, arrivals)
    ensures Reassemble(Datagram(session, packet, addr, chunks, first), arrivals) ==
            if Complete(session, packet, addr, chunks, first, arrivals) then Payload(Concat(chunks)) else Nothing
  {
    OwnDatagram(session, packet, addr, chunks, first);
    if |chunks| == 1 {
      assert chunks[1..] == [] && Concat(chunks) == chunks[0] + [];
    } else {
      GatheredFromPieces(session, packet, addr, chunks, first, arrivals);
    }
  }

  lemma {:induction false} GatheredFromPieces(
      session: nat, packet: nat, addr: Data, chunks: seq<Data>, first: nat, arrivals: seq<Arrival>)
    requires Sendable(session, packet, addr, chunks) && first < |chunks|
    requires NoForgery(session, packet, addr, chunks, arrivals)
    ensures Gather(Empty(|chunks|)[first := Some(chunks[first])], arrivals, session, packet) ==
            if Complete(session, packet, addr, chunks, first, arrivals) then Payload(Concat(chunks)) else Nothing
  {
    var frags := Empty(|chunks|)[first := Some(chunks[first])];
    var own := OwnDatagrams(session, packet, addr, chunks, arrivals);
    GatherExactly(frags, session, packet, own, chunks, arrivals);
    assert Covered(frags, own, arrivals) <==> Complete(session, packet, addr, chunks, first, arrivals);
  }

  // ----- a first fragment whose number is not below its count -----

  lemma {:induction false} GatherStaysInBounds(frags: Slots, arrivals: seq<Arrival>, session: nat, packet: nat)
    ensures var r := Gather(frags, arrivals, session, packet); r.Payload? || r.Nothing?
    decreases |arrivals|
  {
    if Filled(frags) < |frags| && arrivals != [] && arrivals[0].Got? {
      GatherStaysInBounds(Accept(frags, arrivals[0].bytes, session, packet), arrivals[1..], session, packet);
    }
  }

  /** The receiver indexes out of bounds exactly when the first datagram it is handed can be read, is not the
      only one of its message and has a number that is not below its count. */
  lemma OutOfBoundsExactlyWhen(first: Data, arrivals: seq<Arrival>)
    ensures Reassemble(first, arrivals).OutOfBounds? <==>
            var f := ParseFragment(first);
            f.Some? && f.value.fragCount != 1 && f.value.fragId >= f.value.fragCount
  {
    var f := ParseFragment(first);
    if f.Some? && f.value.fragId < f.value.fragCount {
      GatherStaysInBounds(Empty(f.value.fragCount)[f.value.fragId := Some(f.value.payload)],
                          arrivals, f.value.session, f.value.packet);
    }
  }

  lemma OwnDatagramOutOfBounds(
      session: nat, packet: nat, addr: Data, chunks: seq<Data>, first: nat, arrivals: seq<Arrival>)
    requires Encodable(session, packet, addr) && first < |chunks|
    ensures Reassemble(Datagram(session, packet, addr, chunks, first), arrivals).OutOfBounds? <==>
            |chunks| % 256 != 1 && first % 256 >= |chunks| % 256
  {
    ParseUndoesHeader(session, packet, first, |chunks|, addr, chunks[first]);
    OutOfBoundsExactlyWhen(Datagram(session, packet, addr, chunks, first), arrivals);
  }

  /** For the sender's own datagrams that is decided by the numbers cut to a byte: it never happens up to 255
      fragments, and with 256 it happens whichever fragment comes first. */
  lemma OwnDatagramOutOfBoundsExactlyWhen(
      session: nat, packet: nat, addr: Data, chunks: seq<Data>, first: nat, arrivals: seq<Arrival>)
    requires Encodable(session, packet, addr) && first < |chunks|
    ensures var n := |chunks| % 256;
      var out := Reassemble(Datagram(session, packet, addr, chunks, first), arrivals).OutOfBounds?;
      && (out <==> n != 1 && first % 256 >= n)
      && (|chunks| <= 255 ==> !out)
      && (|chunks| == 256 ==> out)
  {
    OwnDatagramOutOfBounds(session, packet, addr, chunks, first, arrivals);
    CutToByte(|chunks|, first, Reassemble(Datagram(session, packet, addr, chunks, first), arrivals).OutOfBounds?);
  }

  lemma CutToByte(n: nat, first: nat, out: bool)
    requires first < n && (out <==> n % 256 != 1 && first % 256 >= n % 256)
    ensures (n <= 255 ==> !out) && (n == 256 ==> out)
  {
  }

  // ----- more fragments than the count can say -----

  /** No slot holds more than `size` bytes. */
  predicate Small(frags: Slots, size: nat) {
    forall i :: 0 <= i < |frags| && frags[i].Some? ==> |frags[i].value| <= size
  }

  lemma {:induction false} JoinedIsShort(frags: Slots, size: nat)
    requires Small(frags, size)
    ensures |Joined(frags)| <= |frags| * size
  {
    if frags != [] {
      JoinedIsShort(frags[1..], size);
      assert |frags| * size == |frags[1..]| * size + size;
    }
  }

  lemma {:induction false} PiecesAreLong(data: Data, size: nat)
    requires size >= 1 && data != []
    ensures |data| > (|Pieces(data, size)| - 1) * size
    decreases |data|
  {
    if |data| > size {
      PiecesAreLong(data[size..], size);
      var n := |Pieces(data[size..], size)|;
      assert |Pieces(data, size)| == n + 1;
      OneMore(n - 1, size);
    } else {
      assert Pieces(data, size) == [data[..|data|]] + Pieces(data[|data|..], size);
    }
  }

  lemma OneMore(k: int, size: nat)
    ensures (k + 1) * size == k * size + size
  {
  }

  lemma AcceptStaysSmall(frags: Slots, d: Data, session: nat, packet: nat, size: nat)
    requires Small(frags, size)
    requires Foreign(d, session, packet, |frags|) || |ParseFragment(d).value.payload| <= size
    ensures Small(Accept(frags, d, session, packet), size) && |Accept(frags, d, session, packet)| == |frags|
  {
  }

  lemma {:induction false} GatherIsShort(
      frags: Slots, session: nat, packet: nat, addr: Data, chunks: seq<Data>, arrivals: seq<Arrival>, size: nat)
    requires Encodable(session, packet, addr) && |frags| == |chunks| % 256
    requires Small(frags, size) && forall i :: 0 <= i < |chunks| ==> |chunks[i]| <= size
    requires NoForgery(session, packet, addr, chunks, arrivals)
    ensures var r := Gather(frags, arrivals, session, packet); r.Payload? ==> |r.data| <= |frags| * size
    decreases |arrivals|
  {
    if Filled(frags) >= |frags| {
      JoinedIsShort(frags, size);
    } else if arrivals != [] && arrivals[0].Got? {
      var d := arrivals[0].bytes;
      assert arrivals[0] in arrivals;
      if !Foreign(d, session, packet, |frags|) {
        var j :| 0 <= j < |chunks| && d == Datagram(session, packet, addr, chunks, j);
        ParseUndoesHeader(session, packet, j, |chunks|, addr, chunks[j]);
      }
      AcceptStaysSmall(frags, d, session, packet, size);
      GatherIsShort(Accept(frags, d, session, packet), session, packet, addr, chunks, arrivals[1..], size);
    }
  }

  /** The fragment count is a byte, so 255 is the limit: with more fragments no order of delivery, complete or
      not, ever gives the payload back. */
  lemma {:induction false} NeverWholeBeyond255(
      session: nat, packet: nat, addr: Data, data: Data, first: nat, arrivals: seq<Arrival>)
    requires var chunks := Pieces(data, ChunkSize(addr));
      && Encodable(session, packet, addr) && 256 <= |chunks| && first < |chunks|
      && NoForgery(session, packet, addr, chunks, arrivals)
    ensures Reassemble(Datagram(session, packet, addr, Pieces(data, ChunkSize(addr)), first), arrivals) != Payload(data)
  {
    var size := ChunkSize(addr);
    PiecesAreLong(data, size);
    TooLongForItsCount(session, packet, addr, data, Pieces(data, size), first, arrivals, size);
  }

  lemma {:induction false} TooLongForItsCount(
      session: nat, packet: nat, addr: Data, data: Data, chunks: seq<Data>, first: nat, arrivals: seq<Arrival>,
      size: nat)
    requires Encodable(session, packet, addr) && first < |chunks| && NoForgery(session, packet, addr, chunks, arrivals)
    requires 256 <= |chunks| && (forall i :: 0 <= i < |chunks| ==> |chunks[i]| <= size)
    requires |data| > (|chunks| - 1) * size
    ensures Reassemble(Datagram(session, packet, addr, chunks, first), arrivals) != Payload(data)
  {
    var n := |chunks| % 256;
    assert n <= |chunks| - 1;
    Fewer(n, |chunks| - 1, size);
    ReassembledIsShort(session, packet, addr, chunks, first, arrivals, size);
  }

  lemma {:induction false} ReassembledIsShort(
      session: nat, packet: nat, addr: Data, chunks: seq<Data>, first: nat, arrivals: seq<Arrival>, size: nat)
    requires Encodable(session, packet, addr) && first < |chunks| && NoForgery(session, packet, addr, chunks, arrivals)
    requires forall i :: 0 <= i < |chunks| ==> |chunks[i]| <= size
    ensures var r := Reassemble(Datagram(session, packet, addr, chunks, first), arrivals);
      r.Payload? ==> |r.data| <= (|chunks| % 256) * size
  {
    ParseUndoesHeader(session, packet, first, |chunks|, addr, chunks[first]);
    var n, id := |chunks| % 256, first % 256;
    if n == 1 {
      assert n * size == size;
    } else if id < n {
      var frags := Empty(n)[id := Some(chunks[first])];
      GatherIsShort(frags, session, packet, addr, chunks, arrivals, size);
    }
  }

  lemma Fewer(n: nat, m: nat, size: nat)
    requires n <= m
    ensures n * size <= m * size
  {
    assert (m - n) * size >= 0;
  }
}
