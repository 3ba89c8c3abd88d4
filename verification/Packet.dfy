/** Rewriting TCP packets between the TUN device and the local listener.

    An outgoing packet is redirected to the listener under a translated source port, and the
    listener's replies are turned back into replies from the recorded destination.  Buffers are
    overwritten in place, then both checksums are recomputed. */
module Packet {
  import opened Bytes
  import opened Checksum
  import opened TcpNat

  const IPPROTO_TCP: Byte := 6

  /** The bytes of `p` with `b` written over them from `off`. */
  function Splice(p: Data, off: nat, b: Data): (r: Data)
    requires off + |b| <= |p|
    ensures |r| == |p| && r[off..off + |b|] == b
    ensures forall i :: 0 <= i < off || off + |b| <= i < |p| ==> r[i] == p[i]
  {
    p[..off] + b + p[off + |b|..]
  }

  /** Bytes before or behind the part written over stay where they are. */
  lemma SpliceKeeps(p: Data, off: nat, b: Data, i: nat, j: nat)
    requires off + |b| <= |p| && i <= j <= |p| && (j <= off || off + |b| <= i)
    ensures Splice(p, off, b)[i..j] == p[i..j]
  {
  }

  method CopyInto(pkt: array<Byte>, off: nat, b: Data)
    requires off + |b| <= pkt.Length
    modifies pkt
    ensures pkt[..] == Splice(old(pkt[..]), off, b)
  {
    var i := 0;
    while i < |b|
      invariant 0 <= i <= |b|
      invariant pkt[..] == Splice(old(pkt[..]), off, b[..i])
    {
      pkt[off + i] := b[i];
      i := i + 1;
    }
    assert b[..i] == b;
  }

  // ----- checksums in place -----

  function Ipv4Summed(p: Data): Data {
    if |p| < 20 then p else Splice(p, 0, Summed(p[..20], 10, 0))
  }

  function TcpSummedV4(p: Data, ihl: nat): Data
    requires 20 <= ihl
  {
    if |p| < ihl + 18 then p else
      Splice(p, ihl, Summed(p[ihl..], 16, WordSum(PseudoV4(p[12..16], p[16..20], IPPROTO_TCP, |p| - ihl))))
  }

  function TcpSummedV6(p: Data): Data {
    if |p| < 58 then p else
      Splice(p, 40, Summed(p[40..], 16, PseudoSumV6(p[8..24], p[24..40], IPPROTO_TCP, |p| - 40)))
  }

  method StoreBytes(pkt: array<Byte>, at: nat, hi: Byte, lo: Byte)
    requires at + 2 <= pkt.Length
    modifies pkt
    ensures pkt[..] == WithWord(old(pkt[..]), at, [hi, lo])
  {
    pkt[at] := hi;
    pkt[at + 1] := lo;
  }

  method StoreChecksum(pkt: array<Byte>, at: nat, c: nat)
    requires at + 2 <= pkt.Length && c <= 0xFFFF
    modifies pkt
    ensures pkt[..] == WithWord(old(pkt[..]), at, PutU16(c))
  {
    WordBytes(c);
    StoreBytes(pkt, at, c / 256, c % 256);
  }

  method RecomputeIpv4Checksum(pkt: array<Byte>)
    modifies pkt
    ensures pkt[..] == Ipv4Summed(old(pkt[..]))
  {
    if pkt.Length < 20 {
      return;
    }
    ghost var p := pkt[..];
    StoreBytes(pkt, 10, 0, 0);
    WithWordHead(p, 20, 10, [0, 0]);
    var c := InternetChecksum(pkt[..20]);
    ghost var q := pkt[..];
    StoreChecksum(pkt, 10, c);
    WithWordHead(q, 20, 10, PutU16(c));
    SummedIs(p[..20], 10, 0, WithWord(p[..20], 10, [0, 0]), c);
    HeadIsSpliced(p, pkt[..], Summed(p[..20], 10, 0));
  }

  lemma WithWordHead(q: Data, n: nat, k: nat, word: Data)
    requires k + 2 <= n <= |q| && |word| == 2
    ensures WithWord(q, k, word)[..n] == WithWord(q[..n], k, word)
    ensures forall i :: n <= i < |q| ==> WithWord(q, k, word)[i] == q[i]
  {
  }

  lemma HeadIsSpliced(p: Data, q: Data, head: Data)
    requires |p| == |q| >= |head| && q[..|head|] == head && forall i :: |head| <= i < |p| ==> q[i] == p[i]
    ensures q == Splice(p, 0, head)
  {
    assert q == head + q[|head|..] && q[|head|..] == p[|head|..];
  }

  method RecomputeTcpChecksumV4(pkt: array<Byte>, ihl: nat)
    requires 20 <= ihl && pkt.Length <= 0xFFFF
    modifies pkt
    ensures pkt[..] == TcpSummedV4(old(pkt[..]), ihl)
  {
    if pkt.Length < ihl + 18 {
      return;
    }
    ghost var p := pkt[..];
    var src, dst := pkt[12..16], pkt[16..20];
    ghost var base := WordSum(PseudoV4(src, dst, IPPROTO_TCP, |p| - ihl));
    StoreBytes(pkt, ihl + 16, 0, 0);
    WithWordTail(p, ihl, 16, [0, 0]);
    var c := ChecksumWithPseudoV4(src, dst, IPPROTO_TCP, pkt[ihl..]);
    ghost var q := pkt[..];
    StoreChecksum(pkt, ihl + 16, c);
    WithWordTail(q, ihl, 16, PutU16(c));
    SummedIs(p[ihl..], 16, base, WithWord(p[ihl..], 16, [0, 0]), c);
    TailIsSpliced(p, pkt[..], ihl, Summed(p[ihl..], 16, base));
  }

  method RecomputeTcpChecksumV6(pkt: array<Byte>)
    requires pkt.Length <= 0xFFFF
    modifies pkt
    ensures pkt[..] == TcpSummedV6(old(pkt[..]))
  {
    if pkt.Length < 58 {
      return;
    }
    ghost var p := pkt[..];
    var src, dst := pkt[8..24], pkt[24..40];
    ghost var base := PseudoSumV6(src, dst, IPPROTO_TCP, |p| - 40);
    StoreBytes(pkt, 56, 0, 0);
    WithWordTail(p, 40, 16, [0, 0]);
    var c := ChecksumWithPseudoV6(src, dst, IPPROTO_TCP, pkt[40..]);
    ghost var q := pkt[..];
    StoreChecksum(pkt, 56, c);
    WithWordTail(q, 40, 16, PutU16(c));
    SummedIs(p[40..], 16, base, WithWord(p[40..], 16, [0, 0]), c);
    TailIsSpliced(p, pkt[..], 40, Summed(p[40..], 16, base));
  }

  lemma TailIsSpliced(p: Data, q: Data, off: nat, tail: Data)
    requires |p| == |q| == off + |tail| && q[off..] == tail && forall i :: 0 <= i < off ==> q[i] == p[i]
    ensures q == Splice(p, off, tail)
  {
    assert q == q[..off] + tail && q[..off] == p[..off];
  }

  // ----- rewriting -----

  /** Offsets of the addresses and of the TCP header. */
  datatype Layout = Layout(src: nat, dst: nat, tcp: nat)

  function V4Layout(ihl: nat): Layout { Layout(12, 16, ihl) }

  const V6Layout := Layout(8, 24, 40)

  function Ihl(raw: Data): nat
    requires |raw| > 0
  {
    raw[0] % 16 * 4
  }

  /** The header length counts four-byte words in the low half of the first byte, whatever version stands above it. */
  lemma IhlCountsWords(raw: Data, version: nat, words: nat)
    requires |raw| > 0 && words < 16 && raw[0] == 16 * version + words
    ensures Ihl(raw) == 4 * words
  {
    LowHalf(raw[0], version, words);
  }

  lemma LowHalf(n: nat, high: nat, low: nat)
    requires low < 16 && n == 16 * high + low
    ensures n % 16 == low
  {
  }

  function WritePorts(p: Data, tcp: nat, sport: Port, dport: Port): (r: Data)
    requires tcp + 4 <= |p|
    ensures |r| == |p|
    ensures U16(r[tcp], r[tcp + 1]) == sport && U16(r[tcp + 2], r[tcp + 3]) == dport
    ensures forall i :: 0 <= i < tcp || tcp + 4 <= i < |p| ==> r[i] == p[i]
  {
    var c := Splice(p, tcp, PutU16(sport));
    var d := Splice(c, tcp + 2, PutU16(dport));
    assert d[tcp] == c[tcp..tcp + 2][0] && d[tcp + 1] == c[tcp..tcp + 2][1];
    assert d[tcp + 2] == d[tcp + 2..tcp + 4][0] && d[tcp + 3] == d[tcp + 2..tcp + 4][1];
    d
  }

  function WriteAddresses(p: Data, l: Layout, src: Data, dst: Data): (r: Data)
    requires l.src + |src| == l.dst && l.dst + |dst| <= |p|
    ensures |r| == |p| && r[l.src..l.dst] == src && r[l.dst..l.dst + |dst|] == dst
    ensures forall i :: 0 <= i < l.src || l.dst + |dst| <= i < |p| ==> r[i] == p[i]
  {
    var a := Splice(p, l.src, src);
    SpliceKeeps(a, l.dst, dst, l.src, l.dst);
    Splice(a, l.dst, dst)
  }

  /** New endpoints written into an otherwise unchanged packet. */
  function Readdress(p: Data, l: Layout, src: Data, sport: Port, dst: Data, dport: Port): (r: Data)
    requires l.src + |src| == l.dst && l.dst + |dst| <= l.tcp && l.tcp + 4 <= |p|
    ensures |r| == |p|
    ensures r[l.src..l.dst] == src && r[l.dst..l.dst + |dst|] == dst
    ensures U16(r[l.tcp], r[l.tcp + 1]) == sport && U16(r[l.tcp + 2], r[l.tcp + 3]) == dport
    ensures forall i :: 0 <= i < l.src || l.dst + |dst| <= i < l.tcp || l.tcp + 4 <= i < |p| ==> r[i] == p[i]
  {
    var b := WriteAddresses(p, l, src, dst);
    var d := WritePorts(b, l.tcp, sport, dport);
    PortsKeep(b, l.tcp, sport, dport, l.src, l.dst);
    PortsKeep(b, l.tcp, sport, dport, l.dst, l.dst + |dst|);
    d
  }

  lemma PortsKeep(p: Data, tcp: nat, sport: Port, dport: Port, i: nat, j: nat)
    requires tcp + 4 <= |p| && i <= j <= tcp
    ensures WritePorts(p, tcp, sport, dport)[i..j] == p[i..j]
  {
  }

  function RewriteV4(p: Data, src: Ip4, sport: Port, dst: Ip4, dport: Port): Data
    requires WellFormedV4(p)
  {
    var ihl := Ihl(p);
    Ipv4Summed(TcpSummedV4(Readdress(p, V4Layout(ihl), src, sport, dst, dport), ihl))
  }

  function RewriteV6(p: Data, src: Ip6, sport: Port, dst: Ip6, dport: Port): Data
    requires WellFormedV6(p)
  {
    TcpSummedV6(Readdress(p, V6Layout, src, sport, dst, dport))
  }

  /** What the packet loop and the guards of the TCP handlers have checked. */
  predicate WellFormedV4(p: Data) { 40 <= |p| <= 0xFFFF && 20 <= Ihl(p) <= |p| - 20 }

  predicate WellFormedV6(p: Data) { 60 <= |p| <= 0xFFFF }

  function SrcV4(p: Data): SocketAddr
    requires WellFormedV4(p)
  {
    V4(p[12..16], U16(p[Ihl(p)], p[Ihl(p) + 1]))
  }

  function DstV4(p: Data): SocketAddr
    requires WellFormedV4(p)
  {
    V4(p[16..20], U16(p[Ihl(p) + 2], p[Ihl(p) + 3]))
  }

  function SrcV6(p: Data): SocketAddr
    requires WellFormedV6(p)
  {
    V6(p[8..24], U16(p[40], p[41]))
  }

  function DstV6(p: Data): SocketAddr
    requires WellFormedV6(p)
  {
    V6(p[24..40], U16(p[42], p[43]))
  }

  /** The header sum a receiver computes over the first `n` bytes. */
  predicate HeaderVerifies(p: Data, n: nat)
    requires n <= |p|
  {
    Ones(WordSum(p[..n])) == 0xFFFF
  }

  /** The segment's sum at a receiver of its own: the halves of the two addresses, the protocol number 6, the length
      of the segment and the words of the segment, checksum included (section 3.1 of RFC 9293). */
  predicate TcpVerifiesV4(p: Data)
    requires WellFormedV4(p)
  {
    var ihl := Ihl(p);
    Ones(U16(p[12], p[13]) + U16(p[14], p[15]) + U16(p[16], p[17]) + U16(p[18], p[19]) + 6 + (|p| - ihl)
         + WordSum(p[ihl..])) == 0xFFFF
  }

  /** The same over the words of the two 16-byte addresses (section 8.1 of RFC 8200). */
  predicate TcpVerifiesV6(p: Data)
    requires WellFormedV6(p)
  {
    Ones(WordSum(p[8..24]) + WordSum(p[24..40]) + 6 + (|p| - 40) + WordSum(p[40..])) == 0xFFFF
  }

  /** `q` equals `p` outside the addresses, the ports and the checksums. */
  predicate SamePayload(p: Data, q: Data, l: Layout, addrLen: nat, ipChecksum: bool) {
    |q| == |p| &&
    forall i :: 0 <= i < |p| && !(l.src <= i < l.dst + addrLen) && !(l.tcp <= i < l.tcp + 4)
                && i != l.tcp + 16 && i != l.tcp + 17 && !(ipChecksum && (i == 10 || i == 11))
      ==> q[i] == p[i]
  }

  lemma TcpSummedV4Verifies(p: Data)
    requires WellFormedV4(p)
    ensures var q := TcpSummedV4(p, Ihl(p));
      && |q| == |p| && WellFormedV4(q) && Ihl(q) == Ihl(p) && TcpVerifiesV4(q)
      && forall i :: 0 <= i < |p| && i != Ihl(p) + 16 && i != Ihl(p) + 17 ==> q[i] == p[i]
  {
    var ihl := Ihl(p);
    var q := TcpSummedV4(p, ihl);
    var base := WordSum(PseudoV4(p[12..16], p[16..20], IPPROTO_TCP, |p| - ihl));
    var segment := Summed(p[ihl..], 16, base);
    SplicedTail(p, ihl, segment);
    SummedVerifies(p[ihl..], 16, base);
    PseudoV4Sum(p[12..16], p[16..20], IPPROTO_TCP, |p| - ihl);
    assert forall i :: 0 <= i < 20 ==> q[i] == p[i];
  }

  /** A tail written over by one that differs in some bytes: the packet differs in those. */
  lemma SplicedTail(p: Data, off: nat, b: Data)
    requires off + |b| == |p|
    ensures Splice(p, off, b)[off..] == b
    ensures forall i :: off <= i < |p| && b[i - off] == p[off..][i - off] ==> Splice(p, off, b)[i] == p[i]
  {
    var q := Splice(p, off, b);
    forall i | off <= i < |p| && b[i - off] == p[off..][i - off] ensures q[i] == p[i] {
      assert q[i] == q[off..off + |b|][i - off];
    }
  }

  lemma TcpSummedV6Verifies(p: Data)
    requires WellFormedV6(p)
    ensures var q := TcpSummedV6(p);
      && |q| == |p| && TcpVerifiesV6(q)
      && forall i :: 0 <= i < |p| && i != 56 && i != 57 ==> q[i] == p[i]
  {
    var q := TcpSummedV6(p);
    var base := PseudoSumV6(p[8..24], p[24..40], IPPROTO_TCP, |p| - 40);
    assert q[40..] == Summed(p[40..], 16, base);
    SummedVerifies(p[40..], 16, base);
    assert q[8..24] == p[8..24] && q[24..40] == p[24..40];
    forall i | 0 <= i < |p| && i != 56 && i != 57
      ensures q[i] == p[i]
    {
      if i >= 40 {
        assert q[i] == q[40..][i - 40] && p[i] == p[40..][i - 40];
      }
    }
  }

  lemma Ipv4SummedVerifies(p: Data)
    requires WellFormedV4(p)
    ensures var q := Ipv4Summed(p);
      && |q| == |p| && WellFormedV4(q) && Ihl(q) == Ihl(p) && HeaderVerifies(q, 20)
      && (forall i :: 0 <= i < |p| && i != 10 && i != 11 ==> q[i] == p[i])
      && (TcpVerifiesV4(p) ==> TcpVerifiesV4(q))
  {
    var q := Ipv4Summed(p);
    assert q[..20] == Summed(p[..20], 10, 0);
    SummedVerifies(p[..20], 10, 0);
    forall i | 0 <= i < |p| && i != 10 && i != 11
      ensures q[i] == p[i]
    {
      if i < 20 {
        assert q[i] == q[..20][i] && p[i] == p[..20][i];
      }
    }
    assert q[Ihl(p)..] == p[Ihl(p)..];
  }

  /** Computing the TCP checksum and then the header checksum makes both right and moves nothing else. */
  lemma BothSummedV4(a: Data)
    requires WellFormedV4(a)
    ensures var q := Ipv4Summed(TcpSummedV4(a, Ihl(a)));
      && |q| == |a| && WellFormedV4(q) && HeaderVerifies(q, 20) && TcpVerifiesV4(q)
      && SrcV4(q) == SrcV4(a) && DstV4(q) == DstV4(a)
      && forall i :: 0 <= i < |a| && i != 10 && i != 11 && i != Ihl(a) + 16 && i != Ihl(a) + 17 ==> q[i] == a[i]
  {
    TcpSummedV4Verifies(a);
    var b := TcpSummedV4(a, Ihl(a));
    SameEndpointsV4(a, b);
    Ipv4SummedVerifies(b);
    SameEndpointsV4(b, Ipv4Summed(b));
  }

  lemma SameEndpointsV4(a: Data, b: Data)
    requires WellFormedV4(a) && WellFormedV4(b) && |a| == |b| && Ihl(a) == Ihl(b)
    requires forall i :: 12 <= i < 20 || Ihl(a) <= i < Ihl(a) + 4 ==> a[i] == b[i]
    ensures SrcV4(a) == SrcV4(b) && DstV4(a) == DstV4(b)
  {
  }

  /** A rewritten IPv4 packet runs between the new endpoints, verifies at every receiver that sums the
      20-byte header and the segment, and is otherwise the packet that went in. */
  lemma RewriteV4Correct(p: Data, src: Ip4, sport: Port, dst: Ip4, dport: Port)
    requires WellFormedV4(p)
    ensures var q := RewriteV4(p, src, sport, dst, dport);
      && WellFormedV4(q) && SrcV4(q) == V4(src, sport) && DstV4(q) == V4(dst, dport)
      && HeaderVerifies(q, 20) && TcpVerifiesV4(q)
      && SamePayload(p, q, V4Layout(Ihl(p)), 4, true)
  {
    ReaddressedV4(p, src, sport, dst, dport);
    BothSummedV4(Readdress(p, V4Layout(Ihl(p)), src, sport, dst, dport));
  }

  lemma ReaddressedV4(p: Data, src: Ip4, sport: Port, dst: Ip4, dport: Port)
    requires WellFormedV4(p)
    ensures var a := Readdress(p, V4Layout(Ihl(p)), src, sport, dst, dport);
      && WellFormedV4(a) && Ihl(a) == Ihl(p) && SrcV4(a) == V4(src, sport) && DstV4(a) == V4(dst, dport)
  {
  }

  lemma RewriteV6Correct(p: Data, src: Ip6, sport: Port, dst: Ip6, dport: Port)
    requires WellFormedV6(p)
    ensures var q := RewriteV6(p, src, sport, dst, dport);
      && WellFormedV6(q) && SrcV6(q) == V6(src, sport) && DstV6(q) == V6(dst, dport)
      && TcpVerifiesV6(q) && SamePayload(p, q, V6Layout, 16, false)
  {
    var a := Readdress(p, V6Layout, src, sport, dst, dport);
    TcpSummedV6Verifies(a);
    var q := TcpSummedV6(a);
    assert q[8..24] == a[8..24] && q[24..40] == a[24..40];
  }

  /** With IP options the stored checksum still covers 20 bytes only: the whole header verifies exactly
      when the options themselves sum to a multiple of 0xFFFF. */
  lemma OptionsAreNotCovered(p: Data, src: Ip4, sport: Port, dst: Ip4, dport: Port)
    requires WellFormedV4(p)
    ensures var q := RewriteV4(p, src, sport, dst, dport);
      |q| == |p| && (HeaderVerifies(q, Ihl(p)) <==> WordSum(p[20..Ihl(p)]) % 0xFFFF == 0)
  {
    RewriteV4Correct(p, src, sport, dst, dport);
    var q, n := RewriteV4(p, src, sport, dst, dport), Ihl(p);
    OptionsKept(p, q, n);
    LongerHeader(q, n);
  }

  lemma OptionsKept(p: Data, q: Data, n: nat)
    requires 20 <= n <= |p| && SamePayload(p, q, V4Layout(n), 4, true)
    ensures |q| == |p| && q[20..n] == p[20..n]
  {
  }

  lemma LongerHeader(q: Data, n: nat)
    requires 20 <= n <= |q| && HeaderVerifies(q, 20)
    ensures HeaderVerifies(q, n) <==> WordSum(q[20..n]) % 0xFFFF == 0
  {
    assert q[..n] == q[..20] + q[20..n];
    WordSumSplit(q[..20], q[20..n]);
    MultiplesAddNothing(WordSum(q[..20]), WordSum(q[20..n]));
  }

  lemma {:induction false} MultiplesAddNothing(a: nat, b: nat)
    requires Ones(a) == 0xFFFF
    ensures Ones(a + b) == 0xFFFF <==> b % 0xFFFF == 0
  {
    var k := OnesDiffers(a);
    var j, r := b / 0xFFFF, b % 0xFFFF;
    assert b == 0xFFFF * j + r;
    if r == 0 {
      OnesIs(a + b, 0xFFFF, k + j);
    } else {
      OnesIs(a + b, r, k + j + 1);
    }
  }

  // ----- the two handlers -----

  /** The TUN addresses of one family and the port of the local listener. */
  datatype Stack4 = Stack4(addr: Option<Ip4>, next: Option<Ip4>, tcpPort: Port)
  datatype Stack6 = Stack6(addr: Option<Ip6>, next: Option<Ip6>, tcpPort: Port)

  predicate NotUnicastV4(ip: Ip4) {
    ip == [255, 255, 255, 255] || 224 <= ip[0] < 240 || ip == [0, 0, 0, 0]
  }

  predicate NotUnicastV6(ip: Ip6) {
    ip[0] == 255 || forall i :: 0 <= i < 16 ==> ip[i] == 0
  }

  /** Nothing is redirected to 0.0.0.0, to 224.0.0.0/4 and to 255.255.255.255, and everything else is. */
  lemma NotUnicastV4Is(ip: Ip4)
    ensures var n := Bytes.U32(ip[0], ip[1], ip[2], ip[3]);
      NotUnicastV4(ip) <==> n == 0 || 0xE000_0000 <= n < 0xF000_0000 || n == 0xFFFF_FFFF
  {
    assert ip == [ip[0], ip[1], ip[2], ip[3]];
  }

  /** The number a byte string stands for, the first byte counting most. */
  function BigEndian(d: Data): nat {
    if d == [] then 0 else d[0] * Pow2(8 * (|d| - 1)) + BigEndian(d[1..])
  }

  lemma {:induction false} BigEndianBound(d: Data)
    ensures BigEndian(d) < Pow2(8 * |d|)
    ensures BigEndian(d) == 0 <==> forall i :: 0 <= i < |d| ==> d[i] == 0
  {
    if d != [] {
      BigEndianBound(d[1..]);
      Pow2Sum(8, 8 * (|d| - 1));
      assert Pow2(8) == 256;
      TopByte(d[0], Pow2(8 * (|d| - 1)), BigEndian(d[1..]));
      assert forall i :: 0 < i < |d| ==> d[i] == d[1..][i - 1];
    }
  }

  lemma TopByte(b: Byte, unit: nat, rest: nat)
    requires rest < unit
    ensures b * unit + rest < 256 * unit
    ensures b * unit + rest == 0 <==> b == 0 && rest == 0
    ensures b * unit + rest >= 255 * unit <==> b == 255
  {
    if b < 255 {
      assert b * unit <= 254 * unit;
    }
  }

  /** Nothing is redirected to :: and to ff00::/8, and everything else is. */
  lemma {:induction false} NotUnicastV6Is(ip: Ip6)
    ensures NotUnicastV6(ip) <==> BigEndian(ip) == 0 || BigEndian(ip) >= 0xFF * Pow2(120)
  {
    BigEndianBound(ip);
    BigEndianBound(ip[1..]);
    TopByte(ip[0], Pow2(120), BigEndian(ip[1..]));
  }

  /** The reply the listener sends: from the listener's own endpoint. */
  predicate FromListenerV4(st: Stack4, raw: Data)
    requires WellFormedV4(raw) && st.addr.Some?
  {
    SrcV4(raw) == V4(st.addr.value, st.tcpPort)
  }

  predicate FromListenerV6(st: Stack6, raw: Data)
    requires WellFormedV6(raw) && st.addr.Some?
  {
    SrcV6(raw) == V6(st.addr.value, st.tcpPort)
  }

  /** What a reply to translated port `port` becomes. */
  function RestoredV4(n: Nat, raw: Data, port: nat): Option<Data>
    requires WellFormedV4(raw)
  {
    if port in n.portMap && n.portMap[port].source.V4? && n.portMap[port].destination.V4? then
      var e := n.portMap[port];
      Some(RewriteV4(raw, e.destination.ip4, e.destination.port, e.source.ip4, e.source.port))
    else None
  }

  function RestoredV6(n: Nat, raw: Data, port: nat): Option<Data>
    requires WellFormedV6(raw)
  {
    if port in n.portMap && n.portMap[port].source.V6? && n.portMap[port].destination.V6? then
      var e := n.portMap[port];
      Some(RewriteV6(raw, e.destination.ip6, e.destination.port, e.source.ip6, e.source.port))
    else None
  }

  /** New endpoints and checksums written into the packet in place. */
  method RewriteInPlaceV4(pkt: array<Byte>, src: Ip4, sport: Port, dst: Ip4, dport: Port)
    requires WellFormedV4(pkt[..])
    modifies pkt
    ensures pkt[..] == RewriteV4(old(pkt[..]), src, sport, dst, dport)
  {
    var ihl := Ihl(pkt[..]);
    CopyInto(pkt, 12, src);
    CopyInto(pkt, 16, dst);
    CopyInto(pkt, ihl, PutU16(sport));
    CopyInto(pkt, ihl + 2, PutU16(dport));
    RecomputeTcpChecksumV4(pkt, ihl);
    RecomputeIpv4Checksum(pkt);
  }

  method RewriteInPlaceV6(pkt: array<Byte>, src: Ip6, sport: Port, dst: Ip6, dport: Port)
    requires WellFormedV6(pkt[..])
    modifies pkt
    ensures pkt[..] == RewriteV6(old(pkt[..]), src, sport, dst, dport)
  {
    CopyInto(pkt, 8, src);
    CopyInto(pkt, 24, dst);
    CopyInto(pkt, 40, PutU16(sport));
    CopyInto(pkt, 42, PutU16(dport));
    RecomputeTcpChecksumV6(pkt);
  }

  method RewriteCopyV4(raw: Data, src: Ip4, sport: Port, dst: Ip4, dport: Port) returns (pkt: array<Byte>)
    requires WellFormedV4(raw)
    ensures fresh(pkt) && pkt[..] == RewriteV4(raw, src, sport, dst, dport)
  {
    pkt := new Byte[|raw|](i requires 0 <= i < |raw| => raw[i]);
    assert pkt[..] == raw;
    RewriteInPlaceV4(pkt, src, sport, dst, dport);
  }

  method RewriteCopyV6(raw: Data, src: Ip6, sport: Port, dst: Ip6, dport: Port) returns (pkt: array<Byte>)
    requires WellFormedV6(raw)
    ensures fresh(pkt) && pkt[..] == RewriteV6(raw, src, sport, dst, dport)
  {
    pkt := new Byte[|raw|](i requires 0 <= i < |raw| => raw[i]);
    assert pkt[..] == raw;
    RewriteInPlaceV6(pkt, src, sport, dst, dport);
  }

  /** `out` is the packet written back to the device, if any.  The caller has checked the header length
      and handed over the bytes from there on as the segment. */
  method HandleTcpV4(translator: Translator, raw: Data, st: Stack4, now: int) returns (out: Option<Data>)
    requires Inverse(translator.View())
    requires 20 <= |raw| <= 0xFFFF && 20 <= Ihl(raw) <= |raw|
    modifies translator
    ensures Inverse(translator.View())
    ensures st.addr.None? || st.next.None? || !WellFormedV4(raw) ==>
              out == None && translator.View() == old(translator.View())
    ensures st.addr.Some? && st.next.Some? && WellFormedV4(raw) ==>
              if FromListenerV4(st, raw) then
                && BackStep(old(translator.View()), DstV4(raw).port, now, translator.View())
                && out == RestoredV4(old(translator.View()), raw, DstV4(raw).port)
              else if NotUnicastV4(DstV4(raw).ip4) then
                out == None && translator.View() == old(translator.View())
              else
                && SrcV4(raw) in translator.addrMap && translator.addrMap[SrcV4(raw)] < 0x1_0000
                && OutStep(old(translator.View()), SrcV4(raw), DstV4(raw), now,
                           translator.View(), translator.addrMap[SrcV4(raw)])
                && out == Some(RewriteV4(raw, st.next.value, translator.addrMap[SrcV4(raw)], st.addr.value, st.tcpPort))
  {
    if st.addr.None? || st.next.None? || |raw| - Ihl(raw) < 20 {
      return None;
    }
    var src, dst := SrcV4(raw), DstV4(raw);
    if src.ip4 == st.addr.value && src.port == st.tcpPort {
      var r := translator.LookupBack(dst.port, now);
      if r.Some? && r.value.1.V4? && r.value.0.V4? {
        var pkt := RewriteCopyV4(raw, r.value.1.ip4, r.value.1.port, r.value.0.ip4, r.value.0.port);
        return Some(pkt[..]);
      }
      return None;
    }
    if NotUnicastV4(dst.ip4) {
      return None;
    }
    var port := translator.LookupOrInsert(src, dst, now);
    var pkt := RewriteCopyV4(raw, st.next.value, port, st.addr.value, st.tcpPort);
    out := Some(pkt[..]);
  }

  method HandleTcpV6(translator: Translator, raw: Data, st: Stack6, now: int) returns (out: Option<Data>)
    requires Inverse(translator.View())
    requires 40 <= |raw| <= 0xFFFF
    modifies translator
    ensures Inverse(translator.View())
    ensures st.addr.None? || st.next.None? || !WellFormedV6(raw) ==>
              out == None && translator.View() == old(translator.View())
    ensures st.addr.Some? && st.next.Some? && WellFormedV6(raw) ==>
              if FromListenerV6(st, raw) then
                && BackStep(old(translator.View()), DstV6(raw).port, now, translator.View())
                && out == RestoredV6(old(translator.View()), raw, DstV6(raw).port)
              else if NotUnicastV6(DstV6(raw).ip6) then
                out == None && translator.View() == old(translator.View())
              else
                && SrcV6(raw) in translator.addrMap && translator.addrMap[SrcV6(raw)] < 0x1_0000
                && OutStep(old(translator.View()), SrcV6(raw), DstV6(raw), now,
                           translator.View(), translator.addrMap[SrcV6(raw)])
                && out == Some(RewriteV6(raw, st.next.value, translator.addrMap[SrcV6(raw)], st.addr.value, st.tcpPort))
  {
    if st.addr.None? || st.next.None? || |raw| - 40 < 20 {
      return None;
    }
    var src, dst := SrcV6(raw), DstV6(raw);
    if src.ip6 == st.addr.value && src.port == st.tcpPort {
      var r := translator.LookupBack(dst.port, now);
      if r.Some? && r.value.1.V6? && r.value.0.V6? {
        var pkt := RewriteCopyV6(raw, r.value.1.ip6, r.value.1.port, r.value.0.ip6, r.value.0.port);
        return Some(pkt[..]);
      }
      return None;
    }
    if NotUnicastV6(dst.ip6) {
      return None;
    }
    var port := translator.LookupOrInsert(src, dst, now);
    var pkt := RewriteCopyV6(raw, st.next.value, port, st.addr.value, st.tcpPort);
    out := Some(pkt[..]);
  }

  // ----- there and back -----

  /** The kernel answers a packet by swapping its endpoints. */
  predicate AnswersV4(sent: Data, reply: Data) {
    && WellFormedV4(sent) && WellFormedV4(reply)
    && SrcV4(reply) == DstV4(sent) && DstV4(reply) == SrcV4(sent)
  }

  predicate AnswersV6(sent: Data, reply: Data) {
    && WellFormedV6(sent) && WellFormedV6(reply)
    && SrcV6(reply) == DstV6(sent) && DstV6(reply) == SrcV6(sent)
  }

  /** Out through the translator, through any run of it that does not end the session, and back: for every
      packet the listener's kernel sends in answer (endpoints swapped), the device gets a packet from the
      destination recorded for the session to the source of the first packet, and it verifies. */
  lemma ReplyComesFromRecordedDestinationV4(
      st: Stack4, n: Nat, raw: Data, now: int, ns: seq<Nat>, es: seq<Event>, port: Port, dst: SocketAddr,
      sent: Data, reply: Data)
    requires Inverse(n) && WellFormedV4(raw) && st.addr.Some? && st.next.Some?
    requires IsRun(ns, es) && OutStep(n, SrcV4(raw), DstV4(raw), now, ns[0], port)
    requires Session(ns[0], SrcV4(raw), port, dst) && dst.V4?
    requires forall i :: 0 <= i < |es| && port in ns[i].portMap ==> !MayEnd(ns[i], es[i], port)
    requires sent == RewriteV4(raw, st.next.value, port, st.addr.value, st.tcpPort) && AnswersV4(sent, reply)
    ensures SrcV4(raw) !in n.addrMap ==> dst == DstV4(raw)
    ensures var back := RestoredV4(ns[|es|], reply, DstV4(reply).port);
      && back.Some? && WellFormedV4(back.value)
      && SrcV4(back.value) == dst && DstV4(back.value) == SrcV4(raw)
      && HeaderVerifies(back.value, 20) && TcpVerifiesV4(back.value)
      && SamePayload(reply, back.value, V4Layout(Ihl(reply)), 4, true)
    ensures FromListenerV4(st, reply)
  {
    OutKeepsInverse(n, SrcV4(raw), DstV4(raw), now, ns[0], port);
    RunKeepsSession(ns, es, SrcV4(raw), port, dst);
    RewriteV4Correct(raw, st.next.value, port, st.addr.value, st.tcpPort);
    var src := SrcV4(raw);
    RewriteV4Correct(reply, dst.ip4, dst.port, src.ip4, src.port);
  }

  lemma ReplyComesFromRecordedDestinationV6(
      st: Stack6, n: Nat, raw: Data, now: int, ns: seq<Nat>, es: seq<Event>, port: Port, dst: SocketAddr,
      sent: Data, reply: Data)
    requires Inverse(n) && WellFormedV6(raw) && st.addr.Some? && st.next.Some?
    requires IsRun(ns, es) && OutStep(n, SrcV6(raw), DstV6(raw), now, ns[0], port)
    requires Session(ns[0], SrcV6(raw), port, dst) && dst.V6?
    requires forall i :: 0 <= i < |es| && port in ns[i].portMap ==> !MayEnd(ns[i], es[i], port)
    requires sent == RewriteV6(raw, st.next.value, port, st.addr.value, st.tcpPort) && AnswersV6(sent, reply)
    ensures SrcV6(raw) !in n.addrMap ==> dst == DstV6(raw)
    ensures var back := RestoredV6(ns[|es|], reply, DstV6(reply).port);
      && back.Some? && WellFormedV6(back.value)
      && SrcV6(back.value) == dst && DstV6(back.value) == SrcV6(raw)
      && TcpVerifiesV6(back.value)
      && SamePayload(reply, back.value, V6Layout, 16, false)
    ensures FromListenerV6(st, reply)
  {
    OutKeepsInverse(n, SrcV6(raw), DstV6(raw), now, ns[0], port);
    RunKeepsSession(ns, es, SrcV6(raw), port, dst);
    RewriteV6Correct(raw, st.next.value, port, st.addr.value, st.tcpPort);
    var src := SrcV6(raw);
    RewriteV6Correct(reply, dst.ip6, dst.port, src.ip6, src.port);
  }
}
