/** QUIC variable-length integers (section 16 of RFC 9000): one writer and the three decoders of the program. */
module Varint {
  import opened Bytes

  const MAX_VARINT := 0x4000_0000_0000_0000

  /** The number written in big-endian digits of base 256. */
  function BigEndian(s: Data): nat {
    if s == [] then 0 else BigEndian(s[..|s| - 1]) * 256 + s[|s| - 1]
  }

  /** The low `k` base-256 digits of `n`. */
  function PutBigEndian(n: nat, k: nat): (s: Data)
    ensures |s| == k
  {
    if k == 0 then [] else PutBigEndian(n / 256, k - 1) + [n % 256]
  }

  function Pow256(k: nat): (r: nat)
    ensures r > 0
  {
    if k == 0 then 1 else 256 * Pow256(k - 1)
  }

  lemma {:induction false} BigEndianUndoesPut(n: nat, k: nat)
    requires n < Pow256(k)
    ensures BigEndian(PutBigEndian(n, k)) == n
    decreases k
  {
    if k > 0 {
      BigEndianUndoesPut(n / 256, k - 1);
      assert PutBigEndian(n, k)[..k - 1] == PutBigEndian(n / 256, k - 1);
    }
  }

  lemma {:induction false} LeadingDigit(s: Data)
    requires s != []
    ensures BigEndian(s) == s[0] * Pow256(|s| - 1) + BigEndian(s[1..])
    ensures BigEndian(s[1..]) < Pow256(|s| - 1)
    decreases |s|
  {
    if |s| > 1 {
      var front := s[..|s| - 1];
      LeadingDigit(front);
      assert front[0] == s[0] && front[1..] == s[1..][..|s| - 2];
      assert s[1..][|s| - 2] == s[|s| - 1];
      ScaleUp(s[0], Pow256(|s| - 2), BigEndian(front[1..]));
    }
  }

  lemma ScaleUp(a: nat, p: nat, b: nat)
    ensures (a * p + b) * 256 == a * (256 * p) + b * 256
  {
  }

  // ----- the writer -----

  /** `write_varint` of a 64-bit value: the tag is or-ed into the two top bits. */
  function WriteVarint(i: nat): (s: Data)
    ensures |s| in {1, 2, 4, 8}
  {
    if i <= 63 then [i]
    else if i <= 16383 then PutBigEndian(i + 0x4000, 2)
    else if i <= 1_073_741_823 then PutBigEndian(i + 0x8000_0000, 4)
    else PutBigEndian(i % MAX_VARINT + 3 * MAX_VARINT, 8)
  }

  // ----- the decoders -----

  /** A shift to the left by a power of two. */
  function Shl(n: int, weight: int): int { n * weight }

  /** `decode_varint_slice`: value and bytes consumed. */
  function DecodeSlice(b: Data): Option<(nat, nat)> {
    if b == [] then None else
      match b[0] / 64
      case 0 => Some((b[0] % 64, 1))
      case 1 => if |b| < 2 then None else Some((Shl(b[0] % 64, 0x100) + b[1], 2))
      case 2 =>
        if |b| < 4 then None else
          Some((Shl(b[0] % 64, 0x100_0000) + Shl(b[1], 0x1_0000) + Shl(b[2], 0x100) + b[3], 4))
      case _ =>
        if |b| < 8 then None else
          Some((Shl(b[0] % 64, 0x100_0000_0000_0000) + Shl(b[1], 0x1_0000_0000_0000) + Shl(b[2], 0x100_0000_0000)
                + Shl(b[3], 0x1_0000_0000) + Shl(b[4], 0x100_0000) + Shl(b[5], 0x1_0000) + Shl(b[6], 0x100) + b[7], 8))
  }

  /** `read_varint` of the sniffer, which starts at a position and uses `from_be_bytes`. */
  function Sniff(b: Data, pos: nat): Option<(nat, nat)> {
    if pos >= |b| then None else
      var first := b[pos] % 64;
      match b[pos] / 64
      case 0 => Some((first, 1))
      case 1 => if pos + 2 > |b| then None else Some((BigEndian([first, b[pos + 1]]), 2))
      case 2 => if pos + 4 > |b| then None else Some((BigEndian([first] + b[pos + 1..pos + 4]), 4))
      case _ => if pos + 8 > |b| then None else Some((BigEndian([first] + b[pos + 1..pos + 8]), 8))
  }

  /** `read_varint_async`: value and what is left on the stream; nothing when the stream ends too soon. */
  function ReadStream(s: Data): Option<(nat, Data)> {
    if s == [] then None else
      var first := s[0];
      var rest := s[1..];
      match first / 64
      case 0 => Some((first % 64, rest))
      case 1 => if |rest| < 1 then None else Some((Shl(first % 64, 0x100) + rest[0], rest[1..]))
      case 2 =>
        if |rest| < 3 then None else
          Some((Shl(first % 64, 0x100_0000) + Shl(rest[0], 0x1_0000) + Shl(rest[1], 0x100) + rest[2], rest[3..]))
      case _ =>
        if |rest| < 7 then None else
          Some((Shl(first % 64, 0x100_0000_0000_0000) + Shl(rest[0], 0x1_0000_0000_0000) + Shl(rest[1], 0x100_0000_0000)
                + Shl(rest[2], 0x1_0000_0000) + Shl(rest[3], 0x100_0000) + Shl(rest[4], 0x1_0000)
                + Shl(rest[5], 0x100) + rest[6],
                rest[7..]))
  }

  lemma {:induction false} Append(s: Data, x: Byte)
    ensures BigEndian(s + [x]) == BigEndian(s) * 256 + x
  {
    assert (s + [x])[..|s|] == s;
  }

  lemma Digits2(a: Byte, b: Byte)
    ensures BigEndian([a]) == a && BigEndian([a, b]) == Shl(a, 0x100) + b
  {
    Append([], a);
    Append([a], b);
    assert [] + [a] == [a] && [a] + [b] == [a, b];
  }

  lemma Digits4(a: Byte, b: Byte, c: Byte, d: Byte)
    ensures BigEndian([a, b, c, d]) == Shl(a, 0x100_0000) + Shl(b, 0x1_0000) + Shl(c, 0x100) + d
  {
    Digits2(a, b);
    Append([a, b], c);
    Append([a, b, c], d);
    assert [a, b] + [c] == [a, b, c] && [a, b, c] + [d] == [a, b, c, d];
  }

  lemma Digits6(a: Byte, b: Byte, c: Byte, d: Byte, e: Byte, f: Byte)
    ensures BigEndian([a, b, c, d, e, f]) ==
            Shl(a, 0x100_0000_0000) + Shl(b, 0x1_0000_0000) + Shl(c, 0x100_0000) + Shl(d, 0x1_0000) + Shl(e, 0x100) + f
  {
    Digits4(a, b, c, d);
    Append([a, b, c, d], e);
    Append([a, b, c, d, e], f);
    assert [a, b, c, d] + [e] == [a, b, c, d, e] && [a, b, c, d, e] + [f] == [a, b, c, d, e, f];
  }

  lemma Digits8(a: Byte, b: Byte, c: Byte, d: Byte, e: Byte, f: Byte, g: Byte, h: Byte)
    ensures BigEndian([a, b, c, d, e, f, g, h]) ==
            Shl(a, 0x100_0000_0000_0000) + Shl(b, 0x1_0000_0000_0000) + Shl(c, 0x100_0000_0000)
            + Shl(d, 0x1_0000_0000) + Shl(e, 0x100_0000) + Shl(f, 0x1_0000) + Shl(g, 0x100) + h
  {
    Digits6(a, b, c, d, e, f);
    Append([a, b, c, d, e, f], g);
    Append([a, b, c, d, e, f, g], h);
    assert [a, b, c, d, e, f] + [g] == [a, b, c, d, e, f, g];
    assert [a, b, c, d, e, f, g] + [h] == [a, b, c, d, e, f, g, h];
  }

  /** On every byte string, complete or cut off, the three decoders agree. */
  lemma DecodersAgree(b: Data, pos: nat)
    requires pos <= |b|
    ensures Sniff(b, pos) == DecodeSlice(b[pos..])
    ensures match DecodeSlice(b[pos..])
            case None => ReadStream(b[pos..]) == None
            case Some((v, n)) => n <= |b| - pos && ReadStream(b[pos..]) == Some((v, b[pos + n..]))
  {
    var s := b[pos..];
    if s != [] {
      assert s[0] == b[pos];
      var tag := s[0] / 64;
      if tag == 1 && |s| >= 2 {
        Digits2(s[0] % 64, s[1]);
      } else if tag == 2 && |s| >= 4 {
        Digits4(s[0] % 64, s[1], s[2], s[3]);
        assert [s[0] % 64] + b[pos + 1..pos + 4] == [s[0] % 64, s[1], s[2], s[3]];
      } else if tag == 3 && |s| >= 8 {
        Digits8(s[0] % 64, s[1], s[2], s[3], s[4], s[5], s[6], s[7]);
        assert [s[0] % 64] + b[pos + 1..pos + 8] == [s[0] % 64, s[1], s[2], s[3], s[4], s[5], s[6], s[7]];
      }
    }
  }

  /** The masked first digit of a tagged number. */
  lemma {:induction false} TaggedDigits(s: Data, v: nat, tag: nat)
    requires s != [] && tag < 4 && 4 * v < Pow256(|s|)
    requires 4 * BigEndian(s) == 4 * v + tag * Pow256(|s|)
    ensures s[0] / 64 == tag && BigEndian([s[0] % 64] + s[1..]) == v
  {
    LeadingDigit(s);
    var p, rest := Pow256(|s| - 1), BigEndian(s[1..]);
    var hi, lo := s[0] / 64, s[0] % 64;
    var m: Data := [lo] + s[1..];
    LeadingDigit(m);
    assert m[1..] == s[1..];
    SplitDigit(s[0], p);
    assert BigEndian(m) == lo * p + rest;
    assert 4 * BigEndian(s) == hi * (256 * p) + 4 * (lo * p + rest);
    SmallDigit(lo, p, rest);
    DigitIsTag(hi, tag, 4 * (lo * p + rest), 4 * v, 256 * p);
  }

  lemma SplitDigit(b: Byte, p: nat)
    ensures 4 * (b * p) == b / 64 * (256 * p) + 4 * (b % 64 * p)
  {
  }

  lemma SmallDigit(lo: nat, p: nat, rest: nat)
    requires lo <= 63 && rest < p
    ensures 4 * (lo * p + rest) < 256 * p
  {
  }

  lemma DigitIsTag(a: nat, b: nat, x: nat, y: nat, p: nat)
    requires p > 0 && x < p && y < p && a * p + x == b * p + y
    ensures a == b && x == y
  {
    if a < b {
      Gap(a, b, p);
    } else if b < a {
      Gap(b, a, p);
    }
  }

  lemma Gap(a: nat, b: nat, p: nat)
    requires a < b
    ensures a * p + p <= b * p
  {
    Distribute(a, b - a, p);
    Distribute(1, b - a - 1, p);
  }

  lemma Distribute(a: nat, b: nat, p: nat)
    ensures (a + b) * p == a * p + b * p && b * p >= 0
  {
  }

  lemma DecodeMasked(s: Data, n: nat, more: Data)
    requires |s| == n && n in {1, 2, 4, 8}
    requires s[0] / 64 == if n == 1 then 0 else if n == 2 then 1 else if n == 4 then 2 else 3
    ensures DecodeSlice(s + more) == Some((BigEndian([s[0] % 64] + s[1..]), n))
  {
    DecodersAgree(s + more, 0);
    assert (s + more)[0..] == s + more;
    if n == 1 {
      assert [s[0] % 64] + s[1..] == [s[0] % 64] && [s[0] % 64][..0] == [];
    } else {
      assert (s + more)[1..n] == s[1..];
      assert n == 2 ==> [s[0] % 64] + s[1..] == [s[0] % 64, s[1]];
    }
  }

  lemma Powers()
    ensures Pow256(2) == 0x1_0000 && Pow256(4) == 0x1_0000_0000 && Pow256(8) == 4 * MAX_VARINT
  {
  }

  /** Decoding what was written gives the number back and consumes exactly what was written, for exactly the
      numbers below 2^62. */
  lemma DecodeUndoesWrite(i: nat, more: Data)
    ensures DecodeSlice(WriteVarint(i) + more) == Some((i, |WriteVarint(i)|)) <==> i < MAX_VARINT
    ensures i < MAX_VARINT ==> ReadStream(WriteVarint(i) + more) == Some((i, more))
    ensures i < MAX_VARINT ==> Sniff(WriteVarint(i) + more, 0) == Some((i, |WriteVarint(i)|))
  {
    var s := WriteVarint(i);
    WrittenIsTagged(i);
    DecodeMasked(s, |s|, more);
    DecodersAgree(s + more, 0);
    assert (s + more)[0..] == s + more && (s + more)[|s|..] == more;
  }

  /** The tag says how many bytes there are, the rest is the number cut to 62 bits. */
  lemma WrittenIsTagged(i: nat)
    ensures var s := WriteVarint(i);
      && s[0] / 64 == (if |s| == 1 then 0 else if |s| == 2 then 1 else if |s| == 4 then 2 else 3)
      && BigEndian([s[0] % 64] + s[1..]) == i % MAX_VARINT
  {
    Powers();
    var s := WriteVarint(i);
    if i <= 63 {
      assert [i % 64][..0] == [] && [s[0] % 64] + s[1..] == [i];
    } else if i <= 16383 {
      BigEndianUndoesPut(i + 0x4000, 2);
      TaggedDigits(s, i, 1);
    } else if i <= 1_073_741_823 {
      BigEndianUndoesPut(i + 0x8000_0000, 4);
      TaggedDigits(s, i, 2);
    } else {
      BigEndianUndoesPut(i % MAX_VARINT + 3 * MAX_VARINT, 8);
      TaggedDigits(s, i % MAX_VARINT, 3);
    }
  }
}
