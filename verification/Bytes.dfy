/** Bytes, big-endian integers and the optional value used by every other module. */
module Bytes {

  type Byte = x: int | 0 <= x < 256

  type Data = seq<Byte>

  datatype Option<+T> = None | Some(value: T)

  /** A byte as an unsigned number of unlimited width. */
  function Num(b: Byte): nat { b }

  function Min(a: nat, b: nat): nat { if a <= b then a else b }

  function Pow2(n: nat): (r: nat)
    ensures r > 0
  {
    if n == 0 then 1 else 2 * Pow2(n - 1)
  }

  lemma {:induction false} Pow2Sum(a: nat, b: nat)
    ensures Pow2(a + b) == Pow2(a) * Pow2(b)
  {
    if a > 0 {
      Pow2Sum(a - 1, b);
      assert Pow2(a + b) == 2 * Pow2(a - 1 + b);
    }
  }

  /** The big-endian 16-bit number stored in two bytes. */
  function U16(hi: Byte, lo: Byte): (n: nat)
    ensures n < 0x1_0000
  {
    hi * 256 + lo
  }

  /** `(n as u16).to_be_bytes()`: the cast drops everything above 16 bits.  The two bytes are given by what they
      stand for, which is all that is ever used of them; `PutU16Bytes` has the closed form. */
  function PutU16(n: nat): (s: Data)
    ensures |s| == 2 && U16(s[0], s[1]) == n % 0x1_0000
  {
    assert U16(n % 0x1_0000 / 0x100, n % 0x100) == n % 0x1_0000;
    var hi: Byte, lo: Byte :| U16(hi, lo) == n % 0x1_0000;
    [hi, lo]
  }

  lemma PutU16Value(n: nat)
    ensures U16(PutU16(n)[0], PutU16(n)[1]) == n % 0x1_0000
  {
  }

  lemma PutU16Bytes(n: nat)
    ensures PutU16(n) == [n / 0x100 % 0x100, n % 0x100]
  {
    var s, q := PutU16(n), n / 0x100;
    var hi, lo := q % 0x100, n % 0x100;
    PutU16Value(n);
    RemainderIs(n, q / 0x100, U16(hi, lo));
    OneWayToSplit(s[0], s[1], hi, lo);
    assert s == [s[0], s[1]];
  }

  lemma RemainderIs(n: nat, k: nat, x: nat)
    requires n == 0x1_0000 * k + x && x < 0x1_0000
    ensures n % 0x1_0000 == x
  {
  }

  lemma OneWayToSplit(a: Byte, b: Byte, c: Byte, d: Byte)
    ensures U16(a, b) == U16(c, d) <==> a == c && b == d
  {
  }

  lemma PutU16Exact(n: nat)
    requires n < 0x1_0000
    ensures U16(PutU16(n)[0], PutU16(n)[1]) == n
  {
  }

  /** The big-endian 32-bit number stored in four bytes. */
  function U32(a: Byte, b: Byte, c: Byte, d: Byte): (n: nat)
    ensures n < 0x1_0000_0000
  {
    U16(a, b) * 0x1_0000 + U16(c, d)
  }

  /** `(n as u32).to_be_bytes()`. */
  function PutU32(n: nat): (s: Data)
    ensures |s| == 4
    ensures U32(s[0], s[1], s[2], s[3]) == n % 0x1_0000_0000
  {
    var hi := n % 0x1_0000_0000 / 0x1_0000;
    var lo := n % 0x1_0000_0000 % 0x1_0000;
    assert hi % 0x1_0000 == hi && lo % 0x1_0000 == lo;
    var h, l := PutU16(hi), PutU16(lo);
    assert U16(h[0], h[1]) == hi && U16(l[0], l[1]) == lo;
    [h[0], h[1], l[0], l[1]]
  }

  lemma Reassociate(a: Data, b: Data, c: Data)
    ensures a + (b + c) == (a + b) + c
  {
  }

  /** The concatenation of a list of byte strings. */
  function Concat(parts: seq<Data>): (s: Data)
  {
    if parts == [] then [] else parts[0] + Concat(parts[1..])
  }

  lemma {:induction false} ConcatAppend(a: seq<Data>, b: seq<Data>)
    ensures Concat(a + b) == Concat(a) + Concat(b)
  {
    if a == [] {
      assert a + b == b;
    } else {
      assert (a + b)[1..] == a[1..] + b;
      ConcatAppend(a[1..], b);
    }
  }
}
