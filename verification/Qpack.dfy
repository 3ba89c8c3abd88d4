/** QPACK literal header fields as the Hysteria2 client writes and reads them (section 4.5.6 of RFC 9204,
    integers as in section 5.1 of RFC 7541). */
module Qpack {
  import opened Bytes

  type Header = (Data, Data)

  predicate Ascii(s: Data) { forall i :: 0 <= i < |s| ==> s[i] < 128 }

  // ----- writing -----

  /** The bytes behind a saturated prefix: seven bits each, lowest first, the top bit meaning more. */
  function Continuation(rem: nat): Data {
    if rem >= 128 then [rem % 128 + 128] + Continuation(rem / 128) else [rem]
  }

  function NameLength(n: nat): Data { if n < 7 then [0x20 + n] else [0x27] + Continuation(n - 7) }

  /** The threshold is 128 although the prefix is already saturated at 127. */
  function ValueLength(n: nat): Data { if n < 128 then [n] else [0x7f] + Continuation(n - 127) }

  function Literal(h: Header): Data { NameLength(|h.0|) + h.0 + ValueLength(|h.1|) + h.1 }

  method PutContinuation(buf: Data, n: nat) returns (out: Data)
    ensures out == buf + Continuation(n)
  {
    out := buf;
    var rem := n;
    while rem >= 128
      invariant out + Continuation(rem) == buf + Continuation(n)
      decreases rem
    {
      assert out + ([rem % 128 + 128] + Continuation(rem / 128)) == (out + [rem % 128 + 128]) + Continuation(rem / 128);
      out := out + [rem % 128 + 128];
      rem := rem / 128;
    }
    out := out + [rem];
  }

  method PutLiteralHeader(buf: Data, name: Data, value: Data) returns (out: Data)
    ensures out == buf + Literal((name, value))
  {
    out := PutNameLength(buf, |name|);
    out := out + name;
    out := PutValueLength(out, |value|);
    out := out + value;
    Regroup(buf, NameLength(|name|), name, ValueLength(|value|), value, []);
    assert buf + Literal((name, value)) + [] == buf + Literal((name, value)) && out + [] == out;
  }

  method PutNameLength(buf: Data, nlen: nat) returns (out: Data)
    ensures out == buf + NameLength(nlen)
  {
    if nlen < 7 {
      out := buf + [0x20 + nlen];
    } else {
      out := PutContinuation(buf + [0x27], nlen - 7);
      Reassociate(buf, [0x27], Continuation(nlen - 7));
    }
  }

  method PutValueLength(buf: Data, vlen: nat) returns (out: Data)
    ensures out == buf + ValueLength(vlen)
  {
    if vlen < 128 {
      out := buf + [vlen];
    } else {
      out := PutContinuation(buf + [0x7f], vlen - 127);
      Reassociate(buf, [0x7f], Continuation(vlen - 127));
    }
  }

  lemma Regroup(a: Data, b: Data, c: Data, d: Data, e: Data, f: Data)
    ensures a + (b + c + d + e) + f == a + b + c + d + e + f
    ensures a + (b + c + d + e) + f == a + b + c + (d + e + f)
  {
  }

  function EncodeAll(hs: seq<Header>): Data {
    if hs == [] then [] else Literal(hs[0]) + EncodeAll(hs[1..])
  }

  /** A header block: required insert count and base, then the literals. */
  function Block(hs: seq<Header>): Data { [0, 0] + EncodeAll(hs) }

  // ----- reading -----

  /** What the parser takes from elsewhere: the Huffman decoder, the lossy UTF-8 conversion and the static table. */
  datatype Env = Env(huffman: Data -> Data, lossy: Data -> Data, entry: nat -> Option<Header>)

  /** Lossy conversion leaves ASCII alone, and yields ASCII from nothing else: replacement characters are not. */
  ghost predicate Faithful(env: Env) {
    forall s: Data :: Ascii(s) || Ascii(env.lossy(s)) ==> env.lossy(s) == s
  }

  /** Lengths are 64-bit numbers that wrap, as in the release profile; a slice holds fewer than 2^63 bytes. */
  const TWO64 := 0x1_0000_0000_0000_0000
  const MAX_SLICE := 0x8000_0000_0000_0000

  function Add64(a: nat, b: nat): nat { (a + b) % TWO64 }

  /** A shift to the left: the amount counts modulo 64, what leaves the top is lost. */
  function Shl64(a: nat, m: nat): nat { a * Pow2(m % 64) % TWO64 }

  /** `qpack_read_int` with a prefix of `size` values: the number and the bytes it took. */
  function ReadInt(d: Data, size: nat): (r: Option<(nat, nat)>)
    requires 1 <= size <= 256
    ensures r.Some? ==> 1 <= r.value.1 <= |d| && r.value.0 < TWO64
  {
    if d == [] then None
    else if d[0] % size < size - 1 then Some((d[0] % size, 1))
    else ReadMore(d, 1, size - 1, 0)
  }

  function ReadMore(d: Data, i: nat, val: nat, m: nat): (r: Option<(nat, nat)>)
    ensures r.Some? ==> i < r.value.1 <= |d| && r.value.0 < TWO64
    decreases |d| - i
  {
    if i >= |d| then None else
      var val' := Add64(val, Shl64(d[i] % 128, m));
      if d[i] < 128 then Some((val', i + 1)) else ReadMore(d, i + 1, val', m + 7)
  }

  /** `OutOfOrder` is the panic on a slice that ends before it starts. */
  datatype Text = Short | OutOfOrder | Text(value: Data, next: nat)

  /** A length-prefixed string at `i`: its text, Huffman-decoded if flagged, and where it ends. */
  function ReadText(env: Env, p: Data, i: nat, size: nat, huffman: bool): (r: Text)
    requires i <= |p| && 1 <= size <= 256
    ensures r.Text? ==> i < r.next <= |p|
  {
    var len := ReadInt(p[i..], size);
    if len.None? then Short else
      var start := i + len.value.1;
      var end := Add64(start, len.value.0);
      if end > |p| then Short
      else if end < start then OutOfOrder
      else Text(if huffman then env.huffman(p[start..end]) else env.lossy(p[start..end]), end)
  }

  datatype Step = Stop | Crash | Advance(next: nat, found: seq<Header>)

  /** One turn of the loop in `parse_headers_from_qpack`. */
  function OneField(env: Env, p: Data, i: nat): (s: Step)
    requires i < |p|
    ensures s.Advance? ==> i < s.next <= |p|
  {
    var b := p[i];
    if b >= 128 then
      var idx := ReadInt(p[i..], 64);
      if idx.None? then Stop else
        var e := env.entry(idx.value.0);
        Advance(i + idx.value.1, if e.Some? && e.value.0 != [] then [e.value] else [])
    else if b / 64 == 1 then
      var idx := ReadInt(p[i..], 16);
      if idx.None? || i + idx.value.1 >= |p| then Stop else
        var e := env.entry(idx.value.0);
        ValueAt(env, p, i + idx.value.1, if e.Some? then e.value.0 else [])
    else if b / 32 == 1 then
      match ReadText(env, p, i, 8, b / 8 % 2 == 1)
      case Short => Stop
      case OutOfOrder => Crash
      case Text(name, at) => if at >= |p| then Stop else ValueAt(env, p, at, name)
    else Advance(i + 1, [])
  }

  /** The value at `at` completes a field with this name. */
  function ValueAt(env: Env, p: Data, at: nat, name: Data): (s: Step)
    requires at < |p|
    ensures s.Advance? ==> at < s.next <= |p|
  {
    match ReadText(env, p, at, 128, p[at] >= 128)
    case Short => Stop
    case OutOfOrder => Crash
    case Text(value, next) => Advance(next, [(name, value)])
  }

  datatype Parsed = TooShort | Crashed | Headers(hs: seq<Header>)

  function Prepend(hs: seq<Header>, r: Parsed): Parsed { if r.Headers? then Headers(hs + r.hs) else r }

  function ParseFrom(env: Env, p: Data, i: nat): (r: Parsed)
    ensures !r.TooShort?
    decreases |p| - i
  {
    if i >= |p| then Headers([]) else
      match OneField(env, p, i)
      case Stop => Headers([])
      case Crash => Crashed
      case Advance(next, found) => Prepend(found, ParseFrom(env, p, next))
  }

  method ParseHeadersFromQpack(env: Env, payload: Data) returns (r: Parsed)
    ensures r == if |payload| < 2 then TooShort else ParseFrom(env, payload, 2)
  {
    if |payload| < 2 {
      return TooShort;
    }
    var headers := [];
    var i := 2;
    while i < |payload|
      invariant 2 <= i <= |payload|
      invariant Prepend(headers, ParseFrom(env, payload, i)) == ParseFrom(env, payload, 2)
      decreases |payload| - i
    {
      assert headers + [] == headers;
      match OneField(env, payload, i)
      case Stop => return Headers(headers);
      case Crash => return Crashed;
      case Advance(next, found) =>
        PrependTwice(headers, found, ParseFrom(env, payload, next));
        headers := headers + found;
        i := next;
    }
    assert headers + [] == headers;
    r := Headers(headers);
  }

  lemma PrependTwice(a: seq<Header>, b: seq<Header>, r: Parsed)
    ensures Prepend(a, Prepend(b, r)) == Prepend(a + b, r)
  {
    if r.Headers? {
      assert a + (b + r.hs) == (a + b) + r.hs;
    }
  }

  // ----- when the parser stays in bounds -----

  /** A length read at `i`, if one can be read, ends below 2^64. */
  predicate LengthFits(p: Data, i: nat, size: nat)
    requires i <= |p| && 1 <= size <= 256
  {
    var len := ReadInt(p[i..], size);
    len.Some? ==> i + len.value.1 + len.value.0 < TWO64
  }

  /** The lengths of the field at `i`, its name's and its value's. */
  predicate FieldFits(env: Env, p: Data, i: nat)
    requires i < |p|
  {
    var b := p[i];
    if b >= 128 then true
    else if b / 64 == 1 then
      var idx := ReadInt(p[i..], 16);
      idx.Some? && i + idx.value.1 < |p| ==> LengthFits(p, i + idx.value.1, 128)
    else if b / 32 == 1 then
      && LengthFits(p, i, 8)
      && var name := ReadText(env, p, i, 8, b / 8 % 2 == 1);
         name.Text? && name.next < |p| ==> LengthFits(p, name.next, 128)
    else true
  }

  /** Every length read from `i` on ends below 2^64. */
  predicate LengthsFit(env: Env, p: Data, i: nat)
    decreases |p| - i
  {
    i < |p| ==>
      && FieldFits(env, p, i)
      && var s := OneField(env, p, i);
         s.Advance? ==> LengthsFit(env, p, s.next)
  }

  lemma OutOfOrderExactlyWhenTooLong(env: Env, p: Data, i: nat, size: nat, huffman: bool)
    requires |p| < MAX_SLICE && i <= |p| && 1 <= size <= 256
    ensures ReadText(env, p, i, size, huffman).OutOfOrder? <==> !LengthFits(p, i, size)
  {
    var len := ReadInt(p[i..], size);
    if len.Some? {
      Wraps(i + len.value.1, len.value.0);
    }
  }

  lemma Wraps(a: nat, b: nat)
    requires a < TWO64 && b < TWO64
    ensures Add64(a, b) == if a + b < TWO64 then a + b else a + b - TWO64
  {
  }

  lemma CrashesExactlyWhenTooLong(env: Env, p: Data, i: nat)
    requires |p| < MAX_SLICE && i < |p|
    ensures OneField(env, p, i).Crash? <==> !FieldFits(env, p, i)
  {
    var b := p[i];
    if b / 64 == 1 {
      var idx := ReadInt(p[i..], 16);
      if idx.Some? && i + idx.value.1 < |p| {
        var at := i + idx.value.1;
        OutOfOrderExactlyWhenTooLong(env, p, at, 128, p[at] >= 128);
      }
    } else if b / 32 == 1 {
      OutOfOrderExactlyWhenTooLong(env, p, i, 8, b / 8 % 2 == 1);
      var name := ReadText(env, p, i, 8, b / 8 % 2 == 1);
      if name.Text? && name.next < |p| {
        OutOfOrderExactlyWhenTooLong(env, p, name.next, 128, p[name.next] >= 128);
      }
    }
  }

  /** On every slice the parser stays in bounds exactly when every length it reads ends below 2^64. */
  lemma {:induction false} InBoundsExactlyWhenLengthsFit(env: Env, p: Data, i: nat)
    requires |p| < MAX_SLICE
    ensures ParseFrom(env, p, i).Crashed? <==> !LengthsFit(env, p, i)
    decreases |p| - i
  {
    if i < |p| {
      CrashesExactlyWhenTooLong(env, p, i);
      var s := OneField(env, p, i);
      if s.Advance? {
        InBoundsExactlyWhenLengthsFit(env, p, s.next);
      }
    }
  }

  /** An input: a name length of 2^64 - 3 fits 64 bits, and the position behind it does not. */
  lemma {:induction false} CrashesOnHugeName(env: Env)
    ensures ParseFrom(env, [0, 0, 0x27, 0xF6, 255, 255, 255, 255, 255, 255, 255, 255, 1], 2).Crashed?
  {
    HugeNameLength();
    var n := NameLength(TWO64 - 3);
    var p := [0, 0, 0x27, 0xF6, 255, 255, 255, 255, 255, 255, 255, 255, 1];
    ReadNameLength(TWO64 - 3, []);
    assert n + [] == n && p[2..] == n;
    Wraps(13, TWO64 - 3);
  }

  lemma HugeNameLength()
    ensures NameLength(TWO64 - 3) == [0x27, 0xF6, 255, 255, 255, 255, 255, 255, 255, 255, 1]
  {
    HalfOfHuge();
    OneByteMore(0x1FFF_FFFF, 127, [255, 255, 255, 255, 1]);
    OneByteMore(0xF_FFFF_FFFF, 127, [255, 255, 255, 255, 255, 1]);
    OneByteMore(0x7FF_FFFF_FFFF, 127, [255, 255, 255, 255, 255, 255, 1]);
    RestOfHuge();
  }

  lemma RestOfHuge()
    requires Continuation(0x3_FFFF_FFFF_FFFF) == [255, 255, 255, 255, 255, 255, 255, 1]
    ensures NameLength(TWO64 - 3) == [0x27, 0xF6, 255, 255, 255, 255, 255, 255, 255, 255, 1]
  {
    OneByteMore(0x3_FFFF_FFFF_FFFF, 127, [255, 255, 255, 255, 255, 255, 255, 1]);
    OneByteMore(0x1FF_FFFF_FFFF_FFFF, 118, [255, 255, 255, 255, 255, 255, 255, 255, 1]);
  }

  lemma HalfOfHuge()
    ensures Continuation(0x1FFF_FFFF) == [255, 255, 255, 255, 1]
  {
    OneByteMore(0x1, 127, [1]);
    OneByteMore(0xFF, 127, [255, 1]);
    OneByteMore(0x7FFF, 127, [255, 255, 1]);
    OneByteMore(0x3F_FFFF, 127, [255, 255, 255, 1]);
  }

  lemma OneByteMore(rem: nat, low: nat, c: Data)
    requires rem >= 1 && low < 128 && Continuation(rem) == c
    ensures Continuation(rem * 128 + low) == [low + 128] + c
  {
    assert (rem * 128 + low) / 128 == rem && (rem * 128 + low) % 128 == low;
  }

  // ----- integers -----

  lemma Pow2Of16()
    ensures Pow2(16) == 0x1_0000 && Pow2(7) == 128
  {
    assert Pow2(4) == 16;
    Pow2Sum(4, 4);
    Pow2Sum(8, 8);
    Pow2Sum(4, 3);
  }

  lemma Pow2Of64()
    ensures Pow2(64) == TWO64 && Pow2(7) == 128
  {
    Pow2Of16();
    Pow2Sum(16, 16);
    Pow2Sum(32, 32);
  }

  lemma Grows(a: nat, b: nat, w: nat)
    requires a <= b
    ensures a * w <= b * w
  {
    assert (b - a) * w >= 0;
  }

  lemma {:induction false} ShiftIsShort(rem: nat, m: nat)
    requires (rem >= 1 || m == 0) && rem * Pow2(m) < TWO64
    ensures m < 64
  {
    if m >= 64 {
      Pow2Of64();
      Pow2Sum(64, m - 64);
      Grows(1, Pow2(m - 64), TWO64);
      Grows(1, rem, Pow2(m));
    }
  }

  /** Shifting part of a number that fits loses nothing. */
  lemma {:induction false} ShiftFits(r: nat, rem: nat, m: nat)
    requires r <= rem && (rem >= 1 || m == 0) && rem * Pow2(m) < TWO64
    ensures Shl64(r, m) == r * Pow2(m) <= rem * Pow2(m)
  {
    ShiftIsShort(rem, m);
    RemainderOf(m, 64);
    var w := Pow2(m);
    Grows(r, rem, w);
    RemainderOf(r * w, TWO64);
  }

  lemma RemainderOf(n: nat, d: nat)
    requires n < d
    ensures n % d == n
  {
  }

  /** One continuation byte that does not overflow. */
  lemma ReadOneMore(d: Data, i: nat, val: nat, m: nat, term: nat)
    requires i < |d| && Shl64(d[i] % 128, m) == term && val + term < TWO64
    ensures ReadMore(d, i, val, m) ==
            if d[i] < 128 then Some((val + term, i + 1)) else ReadMore(d, i + 1, val + term, m + 7)
  {
    Wraps(val, term);
  }

  /** Only the amount modulo 64 matters to a shift, so a number of many continuation bytes starts over. */
  lemma {:induction false} ReadMoreComesRound(d: Data, i: nat, val: nat, m: nat)
    ensures ReadMore(d, i, val, m + 64) == ReadMore(d, i, val, m)
    decreases |d| - i
  {
    if i < |d| {
      assert (m + 64) % 64 == m % 64;
      ReadMoreComesRound(d, i + 1, Add64(val, Shl64(d[i] % 128, m)), m + 7);
    }
  }

  /** What the first continuation byte of a number adds, and what is left for the others. */
  lemma {:induction false} FirstTerm(rem: nat, m: nat, val: nat, total: nat) returns (term: nat)
    requires total == val + rem * Pow2(m) && total < TWO64 && (rem >= 1 || m == 0)
    ensures Shl64(rem % 128, m) == term && val + term < TWO64
    ensures rem < 128 ==> total == val + term
    ensures rem >= 128 ==> total == val + term + rem / 128 * Pow2(m + 7)
  {
    var q, r := rem / 128, rem % 128;
    ShiftFits(r, rem, m);
    term := r * Pow2(m);
    Recombine(q, r, rem, m);
  }

  lemma {:induction false} ReadMoreUndoes(pre: Data, rem: nat, rest: Data, val: nat, m: nat, total: nat)
    requires total == val + rem * Pow2(m) && total < TWO64 && (rem >= 1 || m == 0)
    ensures ReadMore(pre + Continuation(rem) + rest, |pre|, val, m) == Some((total, |pre| + |Continuation(rem)|))
    decreases rem
  {
    var d := pre + Continuation(rem) + rest;
    var term := FirstTerm(rem, m, val, total);
    FirstContinuation(pre, rem, rest);
    ReadOneMore(d, |pre|, val, m, term);
    if rem >= 128 {
      ReadMoreUndoes(pre + [rem % 128 + 128], rem / 128, rest, val + term, m + 7, total);
    }
  }

  lemma {:induction false} FirstContinuation(pre: Data, rem: nat, rest: Data)
    ensures var d := pre + Continuation(rem) + rest;
      && |d| > |pre| && d[|pre|] % 128 == rem % 128 && (d[|pre|] < 128 <==> rem < 128)
      && (rem >= 128 ==>
            && d == (pre + [rem % 128 + 128]) + Continuation(rem / 128) + rest
            && |Continuation(rem)| == 1 + |Continuation(rem / 128)|)
      && (rem < 128 ==> |Continuation(rem)| == 1)
  {
    var d := pre + Continuation(rem) + rest;
    assert d[|pre|] == Continuation(rem)[0];
  }

  lemma Recombine(q: nat, r: nat, rem: nat, m: nat)
    requires rem == 128 * q + r
    ensures r * Pow2(m) + q * Pow2(m + 7) == rem * Pow2(m)
  {
    Pow2Of64();
    Pow2Sum(7, m);
    var w := Pow2(m);
    assert q * (128 * w) == 128 * q * w;
  }

  lemma {:induction false} ReadSaturated(b: Byte, size: nat, rem: nat, rest: Data)
    requires 1 <= size <= 256 && b % size == size - 1 && size - 1 + rem < TWO64
    ensures ReadInt([b] + Continuation(rem) + rest, size) == Some((size - 1 + rem, 1 + |Continuation(rem)|))
  {
    ReadMoreUndoes([b], rem, rest, size - 1, 0, size - 1 + rem);
    assert ([b] + Continuation(rem) + rest)[0] == b;
  }

  lemma ReadNameLength(n: nat, rest: Data)
    requires n < TWO64
    ensures ReadInt(NameLength(n) + rest, 8) == Some((n, |NameLength(n)|))
  {
    if n >= 7 {
      ReadSaturated(0x27, 8, n - 7, rest);
    }
  }

  // ----- one header, then all of them -----

  function TextOf(env: Env, s: Data, huffman: bool): Data { if huffman then env.huffman(s) else env.lossy(s) }

  lemma ReadTextAt(env: Env, pre: Data, len: Data, s: Data, rest: Data, size: nat, huffman: bool)
    requires 1 <= size <= 256 && ReadInt(len + (s + rest), size) == Some((|s|, |len|))
    requires |pre + len + s + rest| < MAX_SLICE
    ensures ReadText(env, pre + len + s + rest, |pre|, size, huffman) ==
            Text(TextOf(env, s, huffman), |pre + len + s|)
  {
    var p := pre + len + s + rest;
    Wraps(|pre + len|, |s|);
    assert p[|pre|..] == len + (s + rest);
    assert p[|pre + len|..|pre + len + s|] == s;
  }

  /** The name of a literal, and where its value starts. */
  lemma NameOfLiteral(env: Env, pre: Data, name: Data, more: Data)
    requires Faithful(env) && Ascii(name) && |pre + NameLength(|name|) + name + more| < MAX_SLICE
    ensures var p := pre + NameLength(|name|) + name + more;
      && p[|pre|] / 32 == 1 && p[|pre|] / 8 % 2 == 0
      && ReadText(env, p, |pre|, 8, false) == Text(name, |pre + NameLength(|name|) + name|)
  {
    var n := NameLength(|name|);
    NameLengthStart(|name|);
    ByteBehind(pre, n, name, more);
    ReadNameLength(|name|, name + more);
    ReadTextAt(env, pre, n, name, more, 8, false);
  }

  lemma NameLengthStart(n: nat)
    ensures NameLength(n) != [] && NameLength(n)[0] / 32 == 1 && NameLength(n)[0] / 8 % 2 == 0
  {
  }

  lemma ByteBehind(a: Data, b: Data, c: Data, d: Data)
    requires b != []
    ensures (a + b + c + d)[|a|] == b[0]
  {
  }

  // ----- every representation of a field -----

  /** An integer behind `high` in its first byte, with a prefix of `size` values (section 5.1 of RFC 7541). */
  function PrefixInt(high: nat, size: nat, n: nat): Data
    requires 1 <= size && (high + 1) * size <= 256
  {
    Grows(1, high + 1, size);
    if n < size - 1 then [high * size + n] else [high * size + (size - 1)] + Continuation(n - (size - 1))
  }

  /** A string of the standard: its bytes, Huffman-coded or not. */
  datatype Str = Str(huffman: bool, bytes: Data)

  function StrBytes(s: Str): Data { PrefixInt(if s.huffman then 1 else 0, 128, |s.bytes|) + s.bytes }

  /** The field lines of sections 4.5.2, 4.5.4 and 4.5.6 of RFC 9204 with their flag bits. */
  datatype Field =
    | Indexed(static_: bool, index: nat)
    | Named(never: bool, static_: bool, index: nat, value: Str)
    | Spelled(never: bool, name: Str, value: Str)

  function Bit(b: bool, weight: nat): nat { if b then weight else 0 }

  function FieldBytes(f: Field): Data {
    match f
    case Indexed(t, i) => PrefixInt(2 + Bit(t, 1), 64, i)
    case Named(n, t, i, v) => PrefixInt(4 + Bit(n, 2) + Bit(t, 1), 16, i) + StrBytes(v)
    case Spelled(n, name, v) =>
      PrefixInt(4 + Bit(n, 2) + Bit(name.huffman, 1), 8, |name.bytes|) + name.bytes + StrBytes(v)
  }

  /** What a field says: an entry of the table, its name with a value, or name and value as spelled. */
  function Meaning(env: Env, f: Field): seq<Header> {
    match f
    case Indexed(_, i) =>
      var e := env.entry(i);
      if e.Some? && e.value.0 != [] then [e.value] else []
    case Named(_, _, i, v) =>
      var e := env.entry(i);
      [(if e.Some? then e.value.0 else [], TextOf(env, v.bytes, v.huffman))]
    case Spelled(_, name, v) => [(TextOf(env, name.bytes, name.huffman), TextOf(env, v.bytes, v.huffman))]
  }

  lemma PrefixByte(high: nat, size: nat, n: nat)
    requires size in {8, 16, 64, 128} && (high + 1) * size <= 256 && n < size
    ensures (high * size + n) % size == n && (high * size + n) / size == high
  {
  }

  lemma ReadPrefixed(high: nat, size: nat, n: nat, rest: Data)
    requires size in {8, 16, 64, 128} && (high + 1) * size <= 256 && n < TWO64
    ensures var p := PrefixInt(high, size, n);
      p != [] && p[0] / size == high && ReadInt(p + rest, size) == Some((n, |p|))
  {
    PrefixByte(high, size, if n < size - 1 then n else size - 1);
    if n >= size - 1 {
      ReadSaturated(high * size + (size - 1), size, n - (size - 1), rest);
    }
  }

  lemma ReadsStr(env: Env, front: Data, name: Data, v: Str, rest: Data)
    requires |front + StrBytes(v) + rest| < MAX_SLICE
    ensures var p := front + StrBytes(v) + rest;
      |front| < |p| &&
      ValueAt(env, p, |front|, name) ==
      Advance(|front + StrBytes(v)|, [(name, TextOf(env, v.bytes, v.huffman))])
  {
    var len := PrefixInt(if v.huffman then 1 else 0, 128, |v.bytes|);
    ReadPrefixed(if v.huffman then 1 else 0, 128, |v.bytes|, v.bytes + rest);
    assert front + StrBytes(v) + rest == front + len + v.bytes + rest;
    ByteBehind(front, len, v.bytes, rest);
    ReadTextAt(env, front, len, v.bytes, rest, 128, v.huffman);
  }

  lemma ReadsIndexed(env: Env, pre: Data, t: bool, i: nat, rest: Data)
    requires i < TWO64
    ensures var f := Indexed(t, i);
      var p := pre + FieldBytes(f) + rest;
      OneField(env, p, |pre|) == Advance(|pre + FieldBytes(f)|, Meaning(env, f))
  {
    var f := Indexed(t, i);
    var p := pre + FieldBytes(f) + rest;
    ReadPrefixed(2 + Bit(t, 1), 64, i, rest);
    assert p[|pre|..] == FieldBytes(f) + rest && p[|pre|] == FieldBytes(f)[0];
  }

  lemma NamedAt(env: Env, p: Data, i: nat, idx: nat, len: nat)
    requires i + len < |p| && 64 <= p[i] < 128 && ReadInt(p[i..], 16) == Some((idx, len))
    ensures var e := env.entry(idx);
      OneField(env, p, i) == ValueAt(env, p, i + len, if e.Some? then e.value.0 else [])
  {
  }

  lemma ReadsReference(env: Env, pre: Data, high: nat, idx: nat, v: Str, rest: Data)
    requires 4 <= high < 8 && idx < TWO64 && |pre + (PrefixInt(high, 16, idx) + StrBytes(v)) + rest| < MAX_SLICE
    ensures var f, e := PrefixInt(high, 16, idx) + StrBytes(v), env.entry(idx);
      OneField(env, pre + f + rest, |pre|) ==
      Advance(|pre + f|, [(if e.Some? then e.value.0 else [], TextOf(env, v.bytes, v.huffman))])
  {
    var at, value, e := PrefixInt(high, 16, idx), StrBytes(v), env.entry(idx);
    ReadPrefixed(high, 16, idx, value + rest);
    QuarterOf(at[0], high);
    Behind(pre, at, value, rest);
    ReadsStr(env, pre + at, if e.Some? then e.value.0 else [], v, rest);
    NamedAt(env, pre + (at + value) + rest, |pre|, idx, |at|);
  }

  lemma ReadsNamed(env: Env, pre: Data, n: bool, t: bool, i: nat, v: Str, rest: Data)
    requires i < TWO64 && |pre + FieldBytes(Named(n, t, i, v)) + rest| < MAX_SLICE
    ensures var f := Named(n, t, i, v);
      var p := pre + FieldBytes(f) + rest;
      OneField(env, p, |pre|) == Advance(|pre + FieldBytes(f)|, Meaning(env, f))
  {
    ReadsReference(env, pre, 4 + Bit(n, 2) + Bit(t, 1), i, v, rest);
  }

  lemma Behind(a: Data, b: Data, c: Data, d: Data)
    requires b != []
    ensures var p := a + (b + c) + d;
      p == (a + b) + c + d && p[|a|..] == b + (c + d) && p[|a|] == b[0] && |a + (b + c)| == |(a + b) + c|
  {
  }

  lemma QuarterOf(b: Byte, high: nat)
    requires b / 16 == high && 4 <= high < 8
    ensures 64 <= b < 128
  {
  }

  lemma EighthOf(b: Byte, high: nat, odd: bool)
    requires b / 8 == high && (high == 4 + Bit(odd, 1) || high == 6 + Bit(odd, 1))
    ensures 32 <= b < 64 && (b / 8 % 2 == 1 <==> odd)
  {
  }

  lemma SpelledAt(env: Env, p: Data, i: nat, huffman: bool, name: Data, at: nat)
    requires i < |p| && 32 <= p[i] < 64 && (p[i] / 8 % 2 == 1 <==> huffman)
    requires ReadText(env, p, i, 8, huffman) == Text(name, at) && at < |p|
    ensures OneField(env, p, i) == ValueAt(env, p, at, name)
  {
  }

  lemma ReadsSpelled(env: Env, pre: Data, n: bool, name: Str, v: Str, rest: Data)
    requires |pre + FieldBytes(Spelled(n, name, v)) + rest| < MAX_SLICE
    ensures var f := Spelled(n, name, v);
      var p := pre + FieldBytes(f) + rest;
      OneField(env, p, |pre|) == Advance(|pre + FieldBytes(f)|, Meaning(env, f))
  {
    var high := 4 + Bit(n, 2) + Bit(name.huffman, 1);
    var len, s, value := PrefixInt(high, 8, |name.bytes|), name.bytes, StrBytes(v);
    ReadPrefixed(high, 8, |s|, s + (value + rest));
    EighthOf(len[0], high, name.huffman);
    var p := pre + (len + s + value) + rest;
    Regroup3(pre, len, s, value, rest);
    ReadTextAt(env, pre, len, s, value + rest, 8, name.huffman);
    ReadsStr(env, pre + len + s, TextOf(env, s, name.huffman), v, rest);
    SpelledAt(env, p, |pre|, name.huffman, TextOf(env, s, name.huffman), |pre + len + s|);
  }

  lemma Regroup3(a: Data, b: Data, c: Data, d: Data, e: Data)
    requires b != []
    ensures var p := a + (b + c + d) + e;
      p == a + b + c + (d + e) && p == (a + b + c) + d + e && p[|a|] == b[0] && |a + (b + c + d)| == |(a + b + c) + d|
  {
  }

  /** Every field line of the standard that refers to the static table or spells its name, Huffman-coded or not,
      is read as what it says, wherever it stands. */
  lemma ReadsEveryField(env: Env, pre: Data, f: Field, rest: Data)
    requires (f.Indexed? || f.Named? ==> f.index < TWO64) && |pre + FieldBytes(f) + rest| < MAX_SLICE
    ensures var p := pre + FieldBytes(f) + rest;
      OneField(env, p, |pre|) == Advance(|pre + FieldBytes(f)|, Meaning(env, f))
  {
    match f
    case Indexed(t, i) => ReadsIndexed(env, pre, t, i, rest);
    case Named(n, t, i, v) => ReadsNamed(env, pre, n, t, i, v, rest);
    case Spelled(n, name, v) => ReadsSpelled(env, pre, n, name, v, rest);
  }

  function FieldsBytes(fs: seq<Field>): Data { if fs == [] then [] else FieldBytes(fs[0]) + FieldsBytes(fs[1..]) }

  function Meanings(env: Env, fs: seq<Field>): seq<Header> {
    if fs == [] then [] else Meaning(env, fs[0]) + Meanings(env, fs[1..])
  }

  /** So is every block of them. */
  lemma {:induction false} ReadsEveryBlock(env: Env, pre: Data, fs: seq<Field>)
    requires forall i :: 0 <= i < |fs| && !fs[i].Spelled? ==> fs[i].index < TWO64
    requires |pre + FieldsBytes(fs)| < MAX_SLICE
    ensures ParseFrom(env, pre + FieldsBytes(fs), |pre|) == Headers(Meanings(env, fs))
    decreases |fs|
  {
    if fs == [] {
      assert pre + FieldsBytes(fs) == pre;
    } else {
      var f, rest := fs[0], fs[1..];
      Reassociate(pre, FieldBytes(f), FieldsBytes(rest));
      ReadsEveryField(env, pre, f, FieldsBytes(rest));
      ReadsEveryBlock(env, pre + FieldBytes(f), rest);
    }
  }

  lemma LengthsAreStandard(n: nat)
    ensures NameLength(n) == PrefixInt(4, 8, n)
    ensures n != 127 ==> ValueLength(n) == PrefixInt(0, 128, n)
    ensures n == 127 ==> |ValueLength(n)| < |PrefixInt(0, 128, n)|
  {
  }

  lemma SameJoined(a: Data, b: Data, c: Data, d: Data, c': Data)
    ensures a + b + c + d == a + b + (c' + d) <==> c == c'
  {
    var s, s' := a + b + c + d, a + b + (c' + d);
    var n := |a + b|;
    assert c == s[n..|s| - |d|] && c' == s'[n..|s'| - |d|];
    assert a + b + (c + d) == s;
  }

  /** The writer's literal is that of the standard exactly when its value is not 127 bytes long. */
  lemma WriterIsStandardExactlyWhen(h: Header)
    ensures Literal(h) == FieldBytes(Spelled(false, Str(false, h.0), Str(false, h.1))) <==> |h.1| != 127
  {
    LengthsAreStandard(|h.0|);
    LengthsAreStandard(|h.1|);
    SameJoined(NameLength(|h.0|), h.0, ValueLength(|h.1|), h.1, PrefixInt(0, 128, |h.1|));
  }

  /** Unless its value is 127 bytes long, a literal is read back whole. */
  lemma ReadsLiteral(env: Env, pre: Data, h: Header, rest: Data)
    requires Faithful(env) && Ascii(h.0) && Ascii(h.1) && |h.1| != 127 && |pre + Literal(h) + rest| < MAX_SLICE
    ensures var p := pre + Literal(h) + rest;
      OneField(env, p, |pre|) == Advance(|pre + Literal(h)|, [h])
  {
    WriterIsStandardExactlyWhen(h);
    ReadsEveryField(env, pre, Spelled(false, Str(false, h.0), Str(false, h.1)), rest);
  }

  /** With 127 value bytes the saturated prefix swallows the first of them as a continuation byte: whatever
      comes out, it is not this header. */
  lemma MisreadsLiteral(env: Env, pre: Data, h: Header, rest: Data)
    requires Faithful(env) && Ascii(h.0) && Ascii(h.1) && |h.1| == 127 && |pre + Literal(h) + rest| < MAX_SLICE
    requires rest != [] ==> rest[0] / 32 == 1
    ensures var s := OneField(env, pre + Literal(h) + rest, |pre|);
      s.Stop? || (s.Advance? && |s.found| == 1 && s.found[0] != h)
  {
    var n := NameLength(|h.0|);
    Regroup(pre, n, h.0, [127], h.1, rest);
    NameOfLiteral(env, pre, h.0, [127] + h.1 + rest);
    MisreadsValue(env, pre + n + h.0, h.0, h.1, rest);
  }

  lemma MisreadsValue(env: Env, front: Data, name: Data, v: Data, rest: Data)
    requires Faithful(env) && Ascii(v) && |v| == 127 && |front + [127] + v + rest| < MAX_SLICE
    requires rest != [] ==> rest[0] / 32 == 1
    ensures var s := ValueAt(env, front + [127] + v + rest, |front|, name);
      s.Stop? || (s.Advance? && |s.found| == 1 && s.found[0] != (name, v))
  {
    var p := front + [127] + v + rest;
    assert p[|front|] == 127 && p[|front|..] == [127] + (v + rest);
    ReadSwallows(v + rest);
    var start := |front| + 2;
    Wraps(start, 127 + v[0]);
    if start + 127 + v[0] <= |p| {
      assert p[start..start + 127 + v[0]] == (v + rest)[1..128 + v[0]];
      ShiftedDiffers(v, rest);
    }
  }

  lemma ReadSwallows(w: Data)
    requires w != [] && w[0] < 128
    ensures ReadInt([127] + w, 128) == Some((127 + w[0], 2))
  {
    var d := [127] + w;
    assert d[0] == 127 && d[1] == w[0] && Shl64(w[0], 0) == w[0];
  }

  lemma ShiftedDiffers(v: Data, rest: Data)
    requires |v| == 127 && 128 + v[0] <= |v + rest| && (rest != [] ==> rest[0] / 32 == 1)
    ensures (v + rest)[1..128 + v[0]] != v
  {
    var w := v + rest;
    var got := w[1..128 + v[0]];
    if got == v {
      assert v[0] == 0 && got[126] == w[127] == rest[0];
      forall j | 0 <= j < 126 ensures v[j] == v[j + 1] {
        assert v[j] == got[j] == w[j + 1];
      }
      AllSame(v, 126);
    }
  }

  lemma {:induction false} AllSame(v: Data, k: nat)
    requires k < |v| && forall j :: 0 <= j < |v| - 1 ==> v[j] == v[j + 1]
    ensures v[k] == v[0]
  {
    if k > 0 {
      AllSame(v, k - 1);
    }
  }

  ghost predicate AllAscii(hs: seq<Header>) {
    forall i :: 0 <= i < |hs| ==> Ascii(hs[i].0) && Ascii(hs[i].1)
  }

  ghost predicate Has127(hs: seq<Header>) { exists i :: 0 <= i < |hs| && |hs[i].1| == 127 }

  lemma {:induction false} EncodedStart(hs: seq<Header>)
    ensures EncodeAll(hs) != [] ==> EncodeAll(hs)[0] / 32 == 1
    ensures hs != [] ==> EncodeAll(hs) != []
  {
  }

  lemma Has127Rest(hs: seq<Header>)
    requires hs != [] && |hs[0].1| != 127
    ensures Has127(hs) <==> Has127(hs[1..])
  {
  }

  lemma {:induction false} ParseFromRecovers(env: Env, pre: Data, hs: seq<Header>)
    requires Faithful(env) && AllAscii(hs) && |pre + EncodeAll(hs)| < MAX_SLICE
    ensures ParseFrom(env, pre + EncodeAll(hs), |pre|) == Headers(hs) <==> !Has127(hs)
    decreases |hs|
  {
    if hs == [] {
      assert pre + EncodeAll(hs) == pre;
    } else {
      var h, rest := hs[0], hs[1..];
      Reassociate(pre, Literal(h), EncodeAll(rest));
      if |h.1| == 127 {
        FirstIsLost(env, pre, hs);
      } else {
        ParseFromRecovers(env, pre + Literal(h), rest);
        FirstIsKept(env, pre, hs);
        Has127Rest(hs);
      }
    }
  }

  lemma {:induction false} FirstIsKept(env: Env, pre: Data, hs: seq<Header>)
    requires Faithful(env) && AllAscii(hs) && hs != [] && |hs[0].1| != 127 && |pre + EncodeAll(hs)| < MAX_SLICE
    ensures var next := pre + Literal(hs[0]);
      ParseFrom(env, pre + EncodeAll(hs), |pre|) == Headers(hs) <==>
      ParseFrom(env, next + EncodeAll(hs[1..]), |next|) == Headers(hs[1..])
  {
    var h, rest := hs[0], EncodeAll(hs[1..]);
    var next := pre + Literal(h);
    Reassociate(pre, Literal(h), rest);
    FirstIsFound(env, pre, h, rest);
    KeptMeans(hs, ParseFrom(env, next + rest, |pre|), ParseFrom(env, next + rest, |next|));
  }

  lemma KeptMeans(hs: seq<Header>, whole: Parsed, r: Parsed)
    requires hs != [] && whole == Prepend([hs[0]], r)
    ensures whole == Headers(hs) <==> r == Headers(hs[1..])
  {
    assert hs == [hs[0]] + hs[1..];
    if r.Headers? {
      assert r.hs == ([hs[0]] + r.hs)[1..];
    }
  }

  lemma {:induction false} FirstIsLost(env: Env, pre: Data, hs: seq<Header>)
    requires Faithful(env) && AllAscii(hs) && hs != [] && |hs[0].1| == 127 && |pre + EncodeAll(hs)| < MAX_SLICE
    ensures ParseFrom(env, pre + EncodeAll(hs), |pre|) != Headers(hs)
  {
    var h, rest := hs[0], EncodeAll(hs[1..]);
    Reassociate(pre, Literal(h), rest);
    EncodedStart(hs[1..]);
    MisreadsLiteral(env, pre, h, rest);
  }

  lemma {:induction false} FirstIsFound(env: Env, pre: Data, h: Header, rest: Data)
    requires Faithful(env) && Ascii(h.0) && Ascii(h.1) && |h.1| != 127 && |pre + Literal(h) + rest| < MAX_SLICE
    ensures var p := pre + Literal(h) + rest;
      ParseFrom(env, p, |pre|) == Prepend([h], ParseFrom(env, p, |pre + Literal(h)|))
  {
    ReadsLiteral(env, pre, h, rest);
    NameLengthStart(|h.0|);
  }

  /** The parser recovers exactly the list of ASCII headers that was written, exactly when no value is 127
      bytes long, for every block a slice can hold. */
  lemma {:induction false} RecoversUnlessLength127(env: Env, hs: seq<Header>)
    requires Faithful(env) && AllAscii(hs) && |Block(hs)| < MAX_SLICE
    ensures ParseFrom(env, Block(hs), 2) == Headers(hs) <==> !Has127(hs)
  {
    ParseFromRecovers(env, [0, 0], hs);
  }
}
