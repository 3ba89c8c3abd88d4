/** The Internet checksum (section 1 of RFC 1071) as the TUN inbound computes it. */
module Checksum {
  import opened Bytes

  type U32 = x: int | 0 <= x < 0x1_0000_0000

  /** The plain sum of the big-endian 16-bit words, an odd last byte being padded with zero. */
  function WordSum(d: Data): nat {
    if |d| == 0 then 0
    else if |d| == 1 then d[0] * 256
    else U16(d[0], d[1]) + WordSum(d[2..])
  }

  /** The one's-complement value of a plain sum: what end-around carrying leaves. */
  function Ones(n: nat): (r: nat)
    ensures r <= 0xFFFF && (r == 0 <==> n == 0)
  {
    if n <= 0xFFFF then n else Ones(n - 0xFFFF)
  }

  /** It is the only number in 1..0xFFFF that differs from the sum by a multiple of 0xFFFF. */
  lemma {:induction false} OnesIs(n: nat, r: nat, k: nat)
    requires 1 <= r <= 0xFFFF && n == r + 0xFFFF * k
    ensures Ones(n) == r
    decreases k
  {
    if k > 0 {
      OnesIs(n - 0xFFFF, r, k - 1);
    }
  }

  lemma {:induction false} OnesDiffers(n: nat) returns (k: nat)
    requires n > 0
    ensures n == Ones(n) + 0xFFFF * k
  {
    if n <= 0xFFFF {
      k := 0;
    } else {
      var j := OnesDiffers(n - 0xFFFF);
      k := j + 1;
    }
  }

  lemma {:induction false} WordSumSplit(a: Data, b: Data)
    requires |a| % 2 == 0
    ensures WordSum(a + b) == WordSum(a) + WordSum(b)
  {
    if a == [] {
      assert a + b == b;
    } else {
      assert (a + b)[2..] == a[2..] + b;
      WordSumSplit(a[2..], b);
    }
  }

  lemma {:induction false} WordSumBound(d: Data)
    ensures WordSum(d) <= 0xFFFF * ((|d| + 1) / 2)
  {
    if |d| >= 2 {
      WordSumBound(d[2..]);
    }
  }

  lemma {:induction false} CarryKeepsOnes(n: nat)
    ensures Ones(n % 0x1_0000 + n / 0x1_0000) == Ones(n)
    ensures n >= 0x1_0000 ==> n % 0x1_0000 + n / 0x1_0000 < n
  {
    if n > 0 {
      var k := OnesDiffers(n);
      var hi, lo := n / 0x1_0000, n % 0x1_0000;
      CarryCounts(n, hi, lo, Ones(n), k);
      OnesIs(lo + hi, Ones(n), k - hi);
    }
  }

  lemma CarryCounts(n: nat, hi: nat, lo: nat, r: nat, k: nat)
    requires n > 0 && n == 0x1_0000 * hi + lo && n == r + 0xFFFF * k && 1 <= r <= 0xFFFF
    ensures hi <= k && lo + hi == r + 0xFFFF * (k - hi)
  {
  }

  /** Adding the complement of a sum makes the one's-complement sum all ones. */
  lemma {:induction false} ComplementFills(n: nat)
    ensures Ones(n + (0xFFFF - Ones(n))) == 0xFFFF
  {
    if n == 0 {
      OnesIs(0xFFFF, 0xFFFF, 0);
    } else {
      var k := OnesDiffers(n);
      OnesIs(n + (0xFFFF - Ones(n)), 0xFFFF, k);
    }
  }

  lemma OneMoreWord(data: Data, i: nat)
    requires i % 2 == 0 && i + 2 <= |data|
    ensures WordSum(data[..i + 2]) == WordSum(data[..i]) + U16(data[i], data[i + 1])
    ensures WordSum(data[..i + 2]) <= 0xFFFF * ((|data| + 1) / 2)
  {
    var word := data[i..i + 2];
    WordSumSplit(data[..i], word);
    assert data[..i] + word == data[..i + 2] && word[2..] == [];
    WordSumBound(data[..i + 2]);
  }

  lemma {:induction false} LastByte(data: Data, i: nat)
    requires i % 2 == 0 && i <= |data| <= i + 1
    ensures WordSum(data) == WordSum(data[..i]) + if i < |data| then U16(data[i], 0) else 0
    ensures WordSum(data) <= 0xFFFF * ((|data| + 1) / 2)
  {
    WordSumBound(data);
    assert data[..i] + data[i..] == data;
    WordSumSplit(data[..i], data[i..]);
  }

  /** The accumulator loop all the checksum functions share; `sum` is a 32-bit variable. */
  method AddWords(acc: U32, data: Data) returns (sum: U32)
    requires acc + 0xFFFF * ((|data| + 1) / 2) < 0x1_0000_0000
    ensures sum == acc + WordSum(data)
  {
    sum := acc;
    var i := 0;
    while i + 1 < |data|
      invariant 0 <= i <= |data| && i % 2 == 0
      invariant sum == acc + WordSum(data[..i])
    {
      OneMoreWord(data, i);
      sum := sum + U16(data[i], data[i + 1]);
      i := i + 2;
    }
    LastByte(data, i);
    if i < |data| {
      sum := sum + U16(data[i], 0);
    }
  }

  /** What has to be added to a sum to make it all ones. */
  function Missing(n: nat): (c: nat)
    ensures c <= 0xFFFF
  {
    0xFFFF - Ones(n)
  }

  /** Carries the high half back in until it is empty, then complements the low half. */
  method FoldAndInvert(acc: U32) returns (c: nat)
    ensures c == Missing(acc)
  {
    var sum := acc;
    while sum / 0x1_0000 != 0
      invariant Ones(sum) == Ones(acc)
      decreases sum
    {
      CarryKeepsOnes(sum);
      sum := sum % 0x1_0000 + sum / 0x1_0000;
    }
    assert Ones(sum) == sum;
    c := 0xFFFF - sum;
  }

  method InternetChecksum(data: Data) returns (c: nat)
    requires |data| <= 0xFFFF
    ensures c == Missing(WordSum(data))
  {
    var sum := AddWords(0, data);
    c := FoldAndInvert(sum);
  }

  /** Source, destination, zero, protocol and length: the length is cast to 16 bits. */
  function PseudoV4(src: Data, dst: Data, proto: Byte, len: nat): Data {
    src + dst + [0, proto] + PutU16(len)
  }

  /** Its words in plain numbers: the halves of the addresses, the protocol and the length. */
  lemma PseudoV4Sum(src: Data, dst: Data, proto: Byte, len: nat)
    requires |src| == |dst| == 4 && len <= 0xFFFF
    ensures WordSum(PseudoV4(src, dst, proto, len)) ==
            U16(src[0], src[1]) + U16(src[2], src[3]) + U16(dst[0], dst[1]) + U16(dst[2], dst[3]) + proto + len
  {
    var tail := PutU16(len);
    PutU16Exact(len);
    FourBytes(src);
    FourBytes(dst);
    FourBytes([0, proto] + tail);
    assert PseudoV4(src, dst, proto, len) == src + (dst + ([0, proto] + tail));
    WordSumSplit(src, dst + ([0, proto] + tail));
    WordSumSplit(dst, [0, proto] + tail);
  }

  lemma {:induction false} FourBytes(d: Data)
    requires |d| == 4
    ensures WordSum(d) == U16(d[0], d[1]) + U16(d[2], d[3])
  {
    var rest := d[2..];
    assert rest[2..] == [];
    assert WordSum(rest) == U16(rest[0], rest[1]);
  }

  method ChecksumWithPseudoV4(src: Data, dst: Data, proto: Byte, data: Data) returns (c: nat)
    requires |src| == |dst| == 4 && |data| <= 0xFFFF
    ensures c == Missing(WordSum(PseudoV4(src, dst, proto, |data|)) + WordSum(data))
    ensures WordSum(PseudoV4(src, dst, proto, |data|)) ==
            U16(src[0], src[1]) + U16(src[2], src[3]) + U16(dst[0], dst[1]) + U16(dst[2], dst[3]) + proto + |data|
  {
    var sum := AddWords(0, PseudoV4(src, dst, proto, |data|));
    PseudoV4Sum(src, dst, proto, |data|);
    sum := AddWords(sum, data);
    c := FoldAndInvert(sum);
  }

  /** The words of the IPv6 pseudo header: both addresses, the length and the protocol (section 8.1 of RFC 8200). */
  function PseudoSumV6(src: Data, dst: Data, proto: Byte, len: nat): nat { WordSum(src) + WordSum(dst) + len + proto }

  /** The length is added in two halves, the upper one being zero for every packet. */
  method ChecksumWithPseudoV6(src: Data, dst: Data, proto: Byte, data: Data) returns (c: nat)
    requires |src| == |dst| == 16 && |data| <= 0xFFFF
    ensures c == Missing(WordSum(src) + WordSum(dst) + |data| + proto + WordSum(data))
  {
    WordSumBound(src);
    WordSumBound(dst);
    var sum := AddWords(0, src);
    sum := AddWords(sum, dst);
    sum := sum + |data| / 0x1_0000 % 0x1_0000;
    sum := sum + |data| % 0x1_0000;
    sum := sum + proto;
    sum := AddWords(sum, data);
    c := FoldAndInvert(sum);
  }

  // ----- storing the checksum -----

  /** The two bytes of a checksum, high byte first. */
  lemma WordBytes(c: nat)
    requires c <= 0xFFFF
    ensures PutU16(c) == [c / 256, c % 256]
  {
    PutU16Bytes(c);
  }

  function WithWord(z: Data, k: nat, word: Data): (r: Data)
    requires k + 2 <= |z| && |word| == 2
    ensures |r| == |z| && forall i :: 0 <= i < |z| && i != k && i != k + 1 ==> r[i] == z[i]
  {
    z[k := word[0]][k + 1 := word[1]]
  }

  /** Clears the two bytes at `k` and stores there the checksum of the result on top of `base`. */
  function Summed(d: Data, k: nat, base: nat): (r: Data)
    requires k + 2 <= |d|
    ensures |r| == |d|
    ensures forall i :: 0 <= i < |d| && i != k && i != k + 1 ==> r[i] == d[i]
  {
    var z := WithWord(d, k, [0, 0]);
    WithWord(z, k, PutU16(Missing(base + WordSum(z))))
  }

  lemma {:induction false} SummedIs(d: Data, k: nat, base: nat, z: Data, c: nat)
    requires k + 2 <= |d| && z == WithWord(d, k, [0, 0]) && c == Missing(base + WordSum(z))
    ensures Summed(d, k, base) == WithWord(z, k, PutU16(c))
  {
  }

  lemma WithWordTail(q: Data, off: nat, k: nat, word: Data)
    requires off + k + 2 <= |q| && |word| == 2
    ensures WithWord(q, off + k, word)[off..] == WithWord(q[off..], k, word)
    ensures forall i :: 0 <= i < off ==> WithWord(q, off + k, word)[i] == q[i]
  {
  }

  /** A receiver that sums everything, checksum included, gets all ones. */
  lemma {:induction false} SummedVerifies(d: Data, k: nat, base: nat)
    requires k + 2 <= |d| && k % 2 == 0
    ensures Ones(base + WordSum(Summed(d, k, base))) == 0xFFFF
  {
    var z := WithWord(d, k, [0, 0]);
    var n := base + WordSum(z);
    PutU16Exact(Missing(n));
    StoreWord(z, k, PutU16(Missing(n)));
    MissingFills(n, Missing(n));
  }

  lemma MissingFills(n: nat, c: nat)
    requires c == Missing(n)
    ensures Ones(n + c) == 0xFFFF
  {
    ComplementFills(n);
  }

  /** Storing a word in two empty bytes adds it to the sum. */
  lemma {:induction false} StoreWord(z: Data, k: nat, word: Data)
    requires k + 2 <= |z| && k % 2 == 0 && z[k] == 0 && z[k + 1] == 0 && |word| == 2
    ensures WordSum(WithWord(z, k, word)) == WordSum(z) + U16(word[0], word[1])
  {
    var head, tail := z[..k], z[k + 2..];
    assert z == head + ([0, 0] + tail) && WithWord(z, k, word) == head + ([word[0], word[1]] + tail);
    WordBetween(head, 0, 0, tail);
    WordBetween(head, word[0], word[1], tail);
  }

  lemma {:induction false} WordBetween(head: Data, hi: Byte, lo: Byte, tail: Data)
    requires |head| % 2 == 0
    ensures WordSum(head + ([hi, lo] + tail)) == WordSum(head) + U16(hi, lo) + WordSum(tail)
  {
    WordSumSplit(head, [hi, lo] + tail);
    WordSumSplit([hi, lo], tail);
    assert [hi, lo][2..] == [];
  }
}
