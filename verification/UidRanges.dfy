/** The user-id ranges that bypass the TUN device, computed with interval arithmetic on 32-bit numbers. */
module UidRanges {

  const U32_MAX := 0xFFFF_FFFF
  const UID_MAX := U32_MAX - 1

  type U32 = x: int | 0 <= x <= U32_MAX

  /** Both ends included. */
  type Range = (U32, U32)

  predicate In(rs: seq<Range>, x: int) { exists i :: 0 <= i < |rs| && rs[i].0 <= x <= rs[i].1 }

  predicate Proper(rs: seq<Range>) { forall i :: 0 <= i < |rs| ==> rs[i].0 <= rs[i].1 }

  /** Sorted and disjoint. */
  predicate Ordered(rs: seq<Range>) {
    Proper(rs) && forall i, j :: 0 <= i < j < |rs| ==> rs[i].1 < rs[j].0
  }

  /** Sorted, disjoint and not even adjacent: the shortest way to write the set. */
  predicate Canonical(rs: seq<Range>) {
    Proper(rs) && forall i, j :: 0 <= i < j < |rs| ==> Apart(rs[i].1, rs[j].0)
  }

  predicate Apart(a: int, b: int) { a + 1 < b }

  lemma InAppend(a: seq<Range>, b: seq<Range>, x: int)
    ensures In(a + b, x) <==> In(a, x) || In(b, x)
  {
    if In(b, x) {
      var i :| 0 <= i < |b| && b[i].0 <= x <= b[i].1;
      assert (a + b)[|a| + i] == b[i];
    }
    if In(a, x) {
      var i :| 0 <= i < |a| && a[i].0 <= x <= a[i].1;
      assert (a + b)[i] == a[i];
    }
  }

  lemma InOne(r: Range, x: int)
    ensures In([r], x) <==> r.0 <= x <= r.1
  {
    assert [r][0] == r;
  }

  lemma FirstRange(a: seq<Range>, x: int)
    requires Canonical(a) && a != []
    ensures In(a, x) <==> a[0].0 <= x <= a[0].1 || In(a[1..], x)
    ensures In(a[1..], x) ==> a[0].1 + 1 < x
  {
    assert a == [a[0]] + a[1..];
    InAppend([a[0]], a[1..], x);
    InOne(a[0], x);
    if In(a[1..], x) {
      var i :| 0 <= i < |a[1..]| && a[1..][i].0 <= x <= a[1..][i].1;
      assert Apart(a[0].1, a[i + 1].0);
    }
  }

  lemma SameFirstRange(a: seq<Range>, b: seq<Range>)
    requires Canonical(a) && Canonical(b) && a != [] && b != [] && forall x :: In(a, x) ==> In(b, x)
    ensures b[0].0 <= a[0].0 && (b[0].0 == a[0].0 ==> a[0].1 <= b[0].1)
  {
    FirstRange(a, a[0].0);
    FirstRange(b, a[0].0);
    if b[0].0 == a[0].0 && b[0].1 < a[0].1 {
      FirstRange(a, b[0].1 + 1);
      FirstRange(b, b[0].1 + 1);
      assert false;
    }
  }

  /** A set is written in this form in one way only. */
  lemma {:induction false} CanonicalIsUnique(a: seq<Range>, b: seq<Range>)
    requires Canonical(a) && Canonical(b) && forall x :: In(a, x) <==> In(b, x)
    ensures a == b
    decreases |a|
  {
    if a == [] || b == [] {
      if a != [] {
        FirstRange(a, a[0].0);
      }
      if b != [] {
        FirstRange(b, b[0].0);
      }
    } else {
      SameFirstRange(a, b);
      SameFirstRange(b, a);
      forall x ensures In(a[1..], x) <==> In(b[1..], x) {
        FirstRange(a, x);
        FirstRange(b, x);
      }
      CanonicalIsUnique(a[1..], b[1..]);
      assert a == [a[0]] + a[1..] && b == [b[0]] + b[1..];
    }
  }

  function SatInc(b: U32): U32 { if b == U32_MAX then U32_MAX else b + 1 }

  // ----- subtraction -----

  /** What is left of one range after taking out another. */
  function CutOne(r: Range, lo: U32, hi: U32): (out: seq<Range>)
    requires lo <= hi && r.0 <= r.1
    ensures Ordered(out)
    ensures forall i :: 0 <= i < |out| ==> r.0 <= out[i].0 && out[i].1 <= r.1
  {
    if hi < r.0 || lo > r.1 then [r]
    else (if r.0 < lo then [(r.0, lo - 1)] else []) + (if r.1 > hi then [(hi + 1, r.1)] else [])
  }

  lemma CutOneMeans(r: Range, lo: U32, hi: U32, x: int)
    requires lo <= hi && r.0 <= r.1
    ensures In(CutOne(r, lo, hi), x) <==> r.0 <= x <= r.1 && !(lo <= x <= hi)
  {
    if hi < r.0 || lo > r.1 {
      InOne(r, x);
    } else {
      var a: seq<Range> := if r.0 < lo then [(r.0, lo - 1)] else [];
      var b: seq<Range> := if r.1 > hi then [(hi + 1, r.1)] else [];
      InAppend(a, b, x);
      if r.0 < lo { InOne((r.0, lo - 1), x); }
      if r.1 > hi { InOne((hi + 1, r.1), x); }
    }
  }

  method CutAll(base: seq<Range>, lo: U32, hi: U32) returns (out: seq<Range>)
    requires Ordered(base) && lo <= hi
    ensures Ordered(out)
    ensures forall x :: In(out, x) <==> In(base, x) && !(lo <= x <= hi)
  {
    out := [];
    var i := 0;
    while i < |base|
      invariant 0 <= i <= |base| && Ordered(out)
      invariant forall j, k :: 0 <= j < |out| && i <= k < |base| ==> out[j].1 < base[k].0
      invariant forall x :: In(out, x) <==> In(base[..i], x) && !(lo <= x <= hi)
    {
      var piece := CutOne(base[i], lo, hi);
      assert base[..i + 1] == base[..i] + [base[i]];
      forall x
        ensures In(out + piece, x) <==> In(base[..i + 1], x) && !(lo <= x <= hi)
      {
        InAppend(out, piece, x);
        InAppend(base[..i], [base[i]], x);
        InOne(base[i], x);
        CutOneMeans(base[i], lo, hi, x);
      }
      out := out + piece;
      i := i + 1;
    }
    assert base[..i] == base;
  }

  method SubtractRanges(base: seq<Range>, sub: seq<Range>) returns (out: seq<Range>)
    requires Ordered(base) && Proper(sub)
    ensures Ordered(out)
    ensures forall x :: In(out, x) <==> In(base, x) && !In(sub, x)
  {
    out := base;
    var i := 0;
    while i < |sub|
      invariant 0 <= i <= |sub| && Ordered(out)
      invariant forall x :: In(out, x) <==> In(base, x) && !In(sub[..i], x)
    {
      out := CutAll(out, sub[i].0, sub[i].1);
      assert sub[..i + 1] == sub[..i] + [sub[i]];
      forall x
        ensures In(sub[..i + 1], x) <==> In(sub[..i], x) || sub[i].0 <= x <= sub[i].1
      {
        InAppend(sub[..i], [sub[i]], x);
        InOne(sub[i], x);
      }
      i := i + 1;
    }
    assert sub[..i] == sub;
  }

  // ----- complement -----

  /** What the loop has found once it has passed `rs`: the numbers outside them, from `lo` or the first range on,
      whichever comes first, up to the last range. */
  predicate Passed(rs: seq<Range>, lo: int, x: int) {
    rs != [] && !In(rs, x) && (lo <= x || rs[0].0 <= x) && x <= rs[|rs| - 1].1
  }

  /** The complement as the code takes it.  Ranges that reach beyond `lo` or `hi` widen those bounds, and a range
      that ends at the largest number is followed by that number again if `hi` is the largest number too, because
      the increment saturates. */
  predicate Gap(rs: seq<Range>, lo: int, hi: int, x: int) {
    if rs == [] then lo <= x <= hi else
      var last := rs[|rs| - 1].1;
      Passed(rs, lo, x) || last < x <= hi || x == last == hi == U32_MAX
  }

  /** Where the ranges lie within the bounds, or at most one number beyond, that is the complement. */
  lemma GapIsComplement(rs: seq<Range>, lo: int, hi: int, x: int)
    requires Ordered(rs) && hi < U32_MAX
    requires forall i :: 0 <= i < |rs| ==> lo <= rs[i].0 && rs[i].1 <= hi + 1
    ensures Gap(rs, lo, hi, x) <==> lo <= x <= hi && !In(rs, x)
  {
    if rs != [] && x > hi && x <= rs[|rs| - 1].1 {
      assert In(rs, x);
    }
  }

  /** Where the gap behind `rs` starts. */
  function From(rs: seq<Range>, lo: int): int {
    if rs == [] then lo else
      var last: int := rs[|rs| - 1].1;
      last + 1
  }

  lemma PassOne(rs: seq<Range>, r: Range, lo: int, x: int)
    requires Ordered(rs) && r.0 <= r.1 && (rs != [] ==> rs[|rs| - 1].1 < r.0)
    ensures Passed(rs + [r], lo, x) <==> Passed(rs, lo, x) || From(rs, lo) <= x < r.0
  {
    InAppend(rs, [r], x);
    InOne(r, x);
    if rs != [] {
      assert (rs + [r])[0] == rs[0] && rs[0].0 <= rs[|rs| - 1].1;
      if In(rs, x) {
        var i :| 0 <= i < |rs| && rs[i].0 <= x <= rs[i].1;
        assert x <= rs[|rs| - 1].1;
      }
    }
  }

  /** Where the loop goes on behind `rs`. */
  function Cursor(rs: seq<Range>, lo: U32): U32 { if rs == [] then lo else SatInc(rs[|rs| - 1].1) }

  /** `out` with the numbers from `cur` up to `end` behind it, if there are any. */
  function Pushed(out: seq<Range>, cur: U32, end: int): seq<Range>
    requires end <= U32_MAX + 1
  {
    if cur < end then out + [(cur, end - 1)] else out
  }

  /** What the loop has found once it has passed `rs`. */
  function GapsBefore(rs: seq<Range>, lo: U32): seq<Range> {
    if rs == [] then [] else
      var front := rs[..|rs| - 1];
      Pushed(GapsBefore(front, lo), Cursor(front, lo), rs[|rs| - 1].0)
  }

  function Complement(rs: seq<Range>, lo: U32, hi: U32): seq<Range> {
    Pushed(GapsBefore(rs, lo), Cursor(rs, lo), hi + 1)
  }

  method ComplementRanges(ranges: seq<Range>, lo: U32, hi: U32) returns (out: seq<Range>)
    ensures out == Complement(ranges, lo, hi)
  {
    out := [];
    var cur: U32 := lo;
    var i := 0;
    while i < |ranges|
      invariant 0 <= i <= |ranges| && out == GapsBefore(ranges[..i], lo) && cur == Cursor(ranges[..i], lo)
    {
      var (a, b) := ranges[i];
      assert ranges[..i + 1][..i] == ranges[..i];
      if cur < a {
        out := out + [(cur, a - 1)];
      }
      cur := SatInc(b);
      i := i + 1;
    }
    assert ranges[..i] == ranges;
    if cur <= hi {
      out := out + [(cur, hi)];
    }
  }

  lemma PushedMeans(out: seq<Range>, cur: U32, end: int)
    requires Ordered(out) && end <= U32_MAX + 1
    requires cur < end ==> forall j :: 0 <= j < |out| ==> out[j].1 < cur
    ensures Ordered(Pushed(out, cur, end))
    ensures forall x :: In(Pushed(out, cur, end), x) <==> In(out, x) || cur <= x < end
    ensures forall j :: 0 <= j < |Pushed(out, cur, end)| ==>
              Pushed(out, cur, end)[j] in out || Pushed(out, cur, end)[j].1 < end
  {
    if cur < end {
      forall x ensures In(Pushed(out, cur, end), x) <==> In(out, x) || cur <= x < end {
        InAppend(out, [(cur, end - 1)], x);
        InOne((cur, end - 1), x);
      }
    }
  }

  /** `out` is what the loop has found once it has passed `rs`. */
  ghost predicate Found(out: seq<Range>, rs: seq<Range>, lo: int) {
    && Ordered(out) && (forall x :: In(out, x) <==> Passed(rs, lo, x))
    && (forall j :: 0 <= j < |out| ==> rs != [] && out[j].1 < rs[|rs| - 1].0)
  }

  lemma PassRange(out: seq<Range>, cur: U32, r: Range, rs: seq<Range>, lo: int)
    requires Ordered(rs) && r.0 <= r.1 && (rs != [] ==> rs[|rs| - 1].1 < r.0)
    requires Found(out, rs, lo) && cur == From(rs, lo)
    ensures Found(Pushed(out, cur, r.0), rs + [r], lo)
  {
    PushedMeans(out, cur, r.0);
    forall x ensures In(Pushed(out, cur, r.0), x) <==> Passed(rs + [r], lo, x) {
      PassOne(rs, r, lo, x);
    }
  }

  lemma FrontOfOrdered(rs: seq<Range>)
    requires Ordered(rs) && rs != []
    ensures var front, last := rs[..|rs| - 1], rs[|rs| - 1];
      && rs == front + [last] && Ordered(front) && last.0 <= last.1
      && (front != [] ==> front[|front| - 1].1 < last.0)
  {
  }

  lemma {:induction false} GapsAreFound(rs: seq<Range>, lo: U32)
    requires Ordered(rs)
    ensures Found(GapsBefore(rs, lo), rs, lo)
  {
    if rs != [] {
      var front, last := rs[..|rs| - 1], rs[|rs| - 1];
      FrontOfOrdered(rs);
      GapsAreFound(front, lo);
      PassRange(GapsBefore(front, lo), Cursor(front, lo), last, front, lo);
    }
  }

  /** For sorted ranges and all bounds: exactly which numbers come out. */
  lemma ComplementMeansGap(rs: seq<Range>, lo: U32, hi: U32)
    requires Ordered(rs)
    ensures Ordered(Complement(rs, lo, hi))
    ensures forall x :: In(Complement(rs, lo, hi), x) <==> Gap(rs, lo, hi, x)
  {
    GapsAreFound(rs, lo);
    PushedMeans(GapsBefore(rs, lo), Cursor(rs, lo), hi + 1);
  }

  // ----- merging -----

  predicate Before(a: Range, b: Range) { a.0 < b.0 || (a.0 == b.0 && a.1 <= b.1) }

  predicate Sorted(rs: seq<Range>) { forall i, j :: 0 <= i < j < |rs| ==> Before(rs[i], rs[j]) }

  /** The library sort. */
  method SortUnstable(rs: seq<Range>) returns (out: seq<Range>)
    ensures Sorted(out) && |out| == |rs| && (forall r :: r in out <==> r in rs)
  {
    out := [];
    var i := 0;
    while i < |rs|
      invariant 0 <= i <= |rs| && |out| == i && Sorted(out)
      invariant forall r :: r in out <==> r in rs[..i]
    {
      var k := 0;
      while k < |out| && Before(out[k], rs[i])
        invariant 0 <= k <= |out|
        invariant forall j :: 0 <= j < k ==> Before(out[j], rs[i])
      {
        k := k + 1;
      }
      out := out[..k] + [rs[i]] + out[k..];
      assert rs[..i + 1] == rs[..i] + [rs[i]];
      i := i + 1;
    }
    assert rs[..i] == rs;
  }

  lemma SameRangesSameSet(a: seq<Range>, b: seq<Range>, x: int)
    requires forall r :: r in a <==> r in b
    ensures In(a, x) <==> In(b, x)
  {
    if In(a, x) {
      var i :| 0 <= i < |a| && a[i].0 <= x <= a[i].1;
      assert a[i] in b;
    }
    if In(b, x) {
      var i :| 0 <= i < |b| && b[i].0 <= x <= b[i].1;
      assert b[i] in a;
    }
  }

  method MergeRanges(ranges: seq<Range>) returns (merged: seq<Range>)
    requires Proper(ranges)
    ensures Canonical(merged)
    ensures forall x :: In(merged, x) <==> In(ranges, x)
  {
    if ranges == [] {
      return [];
    }
    var sorted := SortUnstable(ranges);
    assert forall i :: 0 <= i < |sorted| ==> sorted[i] in ranges;
    merged := MergeSorted(sorted);
    forall x ensures In(merged, x) <==> In(ranges, x) {
      SameRangesSameSet(sorted, ranges, x);
    }
  }

  method MergeSorted(sorted: seq<Range>) returns (merged: seq<Range>)
    requires sorted != [] && Sorted(sorted) && Proper(sorted)
    ensures Canonical(merged)
    ensures forall x :: In(merged, x) <==> In(sorted, x)
  {
    merged := [sorted[0]];
    assert sorted[..1] == [sorted[0]];
    var i := 1;
    while i < |sorted|
      invariant 1 <= i <= |sorted| && |merged| > 0 && Canonical(merged)
      invariant merged[|merged| - 1].0 <= sorted[i - 1].0
      invariant forall x :: In(merged, x) <==> In(sorted[..i], x)
    {
      var (a, b) := sorted[i];
      var rest, last := merged[..|merged| - 1], merged[|merged| - 1];
      ghost var before := merged;
      assert before == rest + [last] && Before(sorted[i - 1], sorted[i]);
      if a <= SatInc(last.1) {
        merged := rest + [(last.0, if last.1 >= b then last.1 else b)];
      } else {
        merged := merged + [(a, b)];
      }
      assert sorted[..i + 1] == sorted[..i] + [sorted[i]];
      forall x
        ensures In(merged, x) <==> In(sorted[..i + 1], x)
      {
        InAppend(sorted[..i], [sorted[i]], x);
        InOne(sorted[i], x);
        InAppend(rest, [last], x);
        InOne(last, x);
        InAppend(rest, [(last.0, if last.1 >= b then last.1 else b)], x);
        InOne((last.0, if last.1 >= b then last.1 else b), x);
        InAppend(before, [(a, b)], x);
      }
      i := i + 1;
    }
    assert sorted[..i] == sorted;
  }

  // ----- the whole computation -----

  method ToSortedRanges(uids: seq<U32>) returns (out: seq<Range>)
    ensures Ordered(out) && (out == [] <==> uids == [])
    ensures forall x :: In(out, x) <==> x in uids
  {
    out := [];
    var i := 0;
    while i < |uids|
      invariant 0 <= i <= |uids| && Ordered(out) && (out == [] <==> i == 0)
      invariant forall j :: 0 <= j < |out| ==> out[j].0 == out[j].1
      invariant forall x :: In(out, x) <==> x in uids[..i]
    {
      out := InsertUid(out, uids[i]);
      assert uids[..i + 1] == uids[..i] + [uids[i]];
      i := i + 1;
    }
    assert uids[..i] == uids;
  }

  /** Sorting and removing duplicates, one number at a time. */
  method InsertUid(rs: seq<Range>, u: U32) returns (out: seq<Range>)
    requires Ordered(rs) && forall j :: 0 <= j < |rs| ==> rs[j].0 == rs[j].1
    ensures Ordered(out) && out != [] && forall j :: 0 <= j < |out| ==> out[j].0 == out[j].1
    ensures forall x :: In(out, x) <==> In(rs, x) || x == u
  {
    var k := 0;
    while k < |rs| && rs[k].0 < u
      invariant 0 <= k <= |rs|
      invariant forall j :: 0 <= j < k ==> rs[j].0 < u
    {
      k := k + 1;
    }
    if k < |rs| && rs[k].0 == u {
      return rs;
    }
    out := rs[..k] + [(u, u)] + rs[k..];
    InsertedIn(rs, k, u);
  }

  lemma InsertedIn(rs: seq<Range>, k: nat, u: U32)
    requires k <= |rs|
    ensures forall x :: In(rs[..k] + [(u, u)] + rs[k..], x) <==> In(rs, x) || x == u
  {
    forall x ensures In(rs[..k] + [(u, u)] + rs[k..], x) <==> In(rs, x) || x == u {
      InAppend(rs[..k] + [(u, u)], rs[k..], x);
      InAppend(rs[..k], [(u, u)], x);
      InOne((u, u), x);
      InAppend(rs[..k], rs[k..], x);
      assert rs[..k] + rs[k..] == rs;
    }
  }

  /** With a non-empty include list the excluded ids are all of 0..2^32 - 2 that are not included or are excluded
      as well; otherwise they are the exclude list.  The ranges are as few as can be. */
  method BuildExcludedUidRanges(included: seq<U32>, exclude: seq<U32>) returns (out: seq<Range>)
    ensures Canonical(out)
    ensures included != [] ==>
              forall x :: In(out, x) <==> 0 <= x <= 0xFFFF_FFFE && !(x in included && x !in exclude)
    ensures included == [] ==> forall x :: In(out, x) <==> x in exclude
  {
    if included == [] && exclude == [] {
      return [];
    }
    var includeRanges := ToSortedRanges(included);
    var excludeRanges := ToSortedRanges(exclude);
    if includeRanges != [] {
      var left := SubtractRanges(includeRanges, excludeRanges);
      var gaps := ComplementRanges(left, 0, UID_MAX);
      ComplementMeansGap(left, 0, UID_MAX);
      forall x ensures Gap(left, 0, UID_MAX, x) <==> 0 <= x <= UID_MAX && !In(left, x) {
        GapIsComplement(left, 0, UID_MAX, x);
      }
      out := MergeRanges(gaps);
    } else {
      out := MergeRanges(excludeRanges);
    }
  }
}
