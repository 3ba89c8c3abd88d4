/** What becomes of Shadowsocks writes that the stream underneath takes in part or not at all. */
module SsWire {
  import opened Bytes
  import opened SsStream
  import Varint

  /** A call of `poll_write` and the answer of the stream underneath. */
  datatype Attempt = Attempt(data: Data, answer: Answer)

  /** What reaches the wire; every attempt moves the counter. */
  function WireOf(k: Aead, counter: nat, tries: seq<Attempt>): Data
    decreases |tries|
  {
    if tries == [] then [] else
      var cs := Chunks(tries[0].data);
      var taken := if tries[0].answer.Took? then Front(Frames(k, counter, cs), tries[0].answer.n) else [];
      taken + WireOf(k, CounterAfter(counter, |cs|), tries[1..])
  }

  /** The writes that are reported complete. */
  function Completed(tries: seq<Attempt>): seq<Data> {
    if tries == [] then [] else (if tries[0].answer.Took? then [tries[0].data] else []) + Completed(tries[1..])
  }

  /** Every write that is taken is taken in one piece. */
  predicate TookWhole(k: Aead, counter: nat, tries: seq<Attempt>)
    decreases |tries|
  {
    tries == [] ||
    var cs := Chunks(tries[0].data);
    && (tries[0].answer.Took? ==> tries[0].answer.n >= |Frames(k, counter, cs)|)
    && TookWhole(k, CounterAfter(counter, |cs|), tries[1..])
  }

  predicate AllTook(tries: seq<Attempt>) { forall i :: 0 <= i < |tries| ==> tries[i].answer.Took? }

  lemma {:induction false} FramesLength(k: Aead, a: nat, b: nat, cs: seq<Data>)
    requires Sound(k)
    ensures |Frames(k, a, cs)| == |Frames(k, b, cs)|
    decreases |cs|
  {
    if cs != [] {
      FramesLength(k, Bump(Bump(a)), Bump(Bump(b)), cs[1..]);
    }
  }

  lemma {:induction false} WireLength(k: Aead, a: nat, b: nat, writes: seq<Data>)
    requires Sound(k)
    ensures |Wire(k, a, writes)| == |Wire(k, b, writes)|
    decreases |writes|
  {
    if writes != [] {
      var cs := Chunks(writes[0]);
      FramesLength(k, a, b, cs);
      WireLength(k, CounterAfter(a, |cs|), CounterAfter(b, |cs|), writes[1..]);
    }
  }

  lemma {:induction false} FirstCompleted(t: Attempt, rest: seq<Attempt>)
    ensures Completed([t] + rest) == if t.answer.Took? then [t.data] + Completed(rest) else Completed(rest)
  {
    assert ([t] + rest)[1..] == rest && [] + Completed(rest) == Completed(rest);
  }

  /** The wire falls short of the frames of the completed writes exactly when one of them was not taken whole. */
  lemma {:induction false} WireIsWholeExactlyWhenTaken(k: Aead, counter: nat, tries: seq<Attempt>)
    requires Sound(k)
    ensures |WireOf(k, counter, tries)| <= |Wire(k, counter, Completed(tries))|
    ensures |WireOf(k, counter, tries)| == |Wire(k, counter, Completed(tries))| <==> TookWhole(k, counter, tries)
    decreases |tries|
  {
    if tries != [] {
      var t, rest := tries[0], tries[1..];
      var next := CounterAfter(counter, |Chunks(t.data)|);
      assert tries == [t] + rest;
      FirstCompleted(t, rest);
      WireIsWholeExactlyWhenTaken(k, next, rest);
      WireLength(k, counter, next, Completed(rest));
      if t.answer.Took? {
        FirstOfWire(k, counter, t.data, Completed(rest));
      }
    }
  }

  lemma {:induction false} FirstOfWire(k: Aead, counter: nat, data: Data, rest: seq<Data>)
    ensures var cs := Chunks(data);
      Wire(k, counter, [data] + rest) == Frames(k, counter, cs) + Wire(k, CounterAfter(counter, |cs|), rest)
  {
    assert ([data] + rest)[1..] == rest;
  }

  lemma FrontIsWhole(s: Data, n: nat)
    requires n >= |s|
    ensures Front(s, n) == s
  {
  }

  lemma {:induction false} FirstOfWireOf(k: Aead, counter: nat, tries: seq<Attempt>)
    requires tries != [] && TookWhole(k, counter, tries)
    ensures var cs := Chunks(tries[0].data);
      var rest := WireOf(k, CounterAfter(counter, |cs|), tries[1..]);
      && TookWhole(k, CounterAfter(counter, |cs|), tries[1..])
      && WireOf(k, counter, tries) == (if tries[0].answer.Took? then Frames(k, counter, cs) + rest else rest)
  {
    var cs := Chunks(tries[0].data);
    var rest := WireOf(k, CounterAfter(counter, |cs|), tries[1..]);
    assert [] + rest == rest;
    if tries[0].answer.Took? {
      FrontIsWhole(Frames(k, counter, cs), tries[0].answer.n);
    }
  }

  /** When nothing is blocked, taking everything is what it needs to get everything onto the wire. */
  lemma {:induction false} WireIsThatOfCompletedWrites(k: Aead, counter: nat, tries: seq<Attempt>)
    requires Sound(k) && AllTook(tries)
    ensures WireOf(k, counter, tries) == Wire(k, counter, Completed(tries)) <==> TookWhole(k, counter, tries)
  {
    WireIsWholeExactlyWhenTaken(k, counter, tries);
    if TookWhole(k, counter, tries) {
      WholeWritesMakeTheWire(k, counter, tries);
    }
  }

  lemma {:induction false} WholeWritesMakeTheWire(k: Aead, counter: nat, tries: seq<Attempt>)
    requires AllTook(tries) && TookWhole(k, counter, tries)
    ensures WireOf(k, counter, tries) == Wire(k, counter, Completed(tries))
    decreases |tries|
  {
    if tries != [] {
      var t, rest := tries[0], tries[1..];
      assert tries == [t] + rest;
      FirstCompleted(t, rest);
      FirstOfWire(k, counter, t.data, Completed(rest));
      FirstOfWireOf(k, counter, tries);
      WholeWritesMakeTheWire(k, CounterAfter(counter, |Chunks(t.data)|), rest);
    }
  }

  /** Only the nonce a text was sealed with opens it, among those a 64-bit counter can take. */
  ghost predicate NonceBound(k: Aead) {
    forall m: nat, n: nat, p: Data :: m < TWO64 && n < TWO64 && m != n ==> k.open(m, k.seal(n, p)).None?
  }

  /** The data of the writes completed before the first one that was blocked after sealing something. */
  function Heard(tries: seq<Attempt>): Data {
    if tries == [] then []
    else if tries[0].answer.Took? then tries[0].data + Heard(tries[1..])
    else if tries[0].data == [] then Heard(tries[1..])
    else []
  }

  function FrameCount(tries: seq<Attempt>): nat {
    if tries == [] then 0 else |Chunks(tries[0].data)| + FrameCount(tries[1..])
  }

  /** For fewer than 2^63 frames the counter has not come round. */
  lemma {:induction false} CounterIsSum(counter: nat, frames: nat)
    requires counter < TWO64 && frames < TWO64 / 2
    ensures CounterAfter(counter, frames) ==
            if counter + 2 * frames < TWO64 then counter + 2 * frames else counter + 2 * frames - TWO64
    decreases frames
  {
    if frames > 0 {
      TwoSteps(counter);
      CounterIsSum(Bump(Bump(counter)), frames - 1);
    }
  }

  lemma TwoSteps(counter: nat)
    requires counter < TWO64
    ensures Bump(Bump(counter)) ==
            if counter + 2 < 0x1_0000_0000_0000_0000 then counter + 2 else counter + 2 - 0x1_0000_0000_0000_0000
  {
  }

  lemma {:induction false} CounterMoves(counter: nat, frames: nat)
    requires counter < TWO64 && frames < TWO64 / 2
    ensures CounterAfter(counter, frames) < TWO64 && (frames >= 1 ==> CounterAfter(counter, frames) != counter)
  {
    CounterIsSum(counter, frames);
  }

  lemma {:induction false} ParseThroughFrames(k: Aead, counter: nat, cs: seq<Data>, more: Data)
    requires Sound(k) && forall i :: 0 <= i < |cs| ==> |cs[i]| < 0x1_0000
    ensures Parse(k, counter, Frames(k, counter, cs) + more).plain ==
            Concat(cs) + Parse(k, CounterAfter(counter, |cs|), more).plain
    decreases |cs|
  {
    if cs == [] {
      assert [] + more == more;
    } else {
      var first, rest := Frame(k, counter, cs[0]), Frames(k, Bump(Bump(counter)), cs[1..]);
      Reassociate(first, rest, more);
      HeadOfFrame(k, counter, cs[0], rest + more);
      assert (first + (rest + more))[|first|..] == rest + more;
      ParseThroughFrames(k, Bump(Bump(counter)), cs[1..], more);
      Reassociate(cs[0], Concat(cs[1..]), Parse(k, CounterAfter(counter, |cs|), more).plain);
    }
  }

  /** A frame sealed under another nonce stops the reader at once. */
  lemma {:induction false} WrongNonceStops(k: Aead, counter: nat, other: nat, payload: Data, more: Data)
    requires Sound(k) && NonceBound(k) && counter < TWO64 && other < TWO64 && counter != other
    ensures ReadHead(k, counter, Frame(k, other, payload) + more) == BadLength
    ensures Parse(k, counter, Frame(k, other, payload) + more) == Parsed([], 0, 0)
  {
    var len := k.seal(other, PutU16(|payload|));
    assert (Frame(k, other, payload) + more)[..LEN_CHUNK] == len;
  }

  lemma {:induction false} WrongNoncesGiveNothing(k: Aead, counter: nat, other: nat, cs: seq<Data>, more: Data)
    requires Sound(k) && NonceBound(k) && counter < TWO64 && other < TWO64 && counter != other && cs != []
    ensures Parse(k, counter, Frames(k, other, cs) + more).plain == []
  {
    var first, rest := Frame(k, other, cs[0]), Frames(k, Bump(Bump(other)), cs[1..]);
    Reassociate(first, rest, more);
    WrongNonceStops(k, counter, other, cs[0], rest + more);
  }

  /** Frames that all stand under later nonces than the reader's give it nothing. */
  lemma {:induction false} MisplacedGivesNothing(k: Aead, counter: nat, ahead: nat, tries: seq<Attempt>)
    requires Sound(k) && NonceBound(k) && counter < TWO64 && ahead >= 1 && ahead + FrameCount(tries) < TWO64 / 2
    requires TookWhole(k, CounterAfter(counter, ahead), tries)
    ensures Parse(k, counter, WireOf(k, CounterAfter(counter, ahead), tries)).plain == []
    decreases |tries|
  {
    if tries != [] {
      var now, cs := CounterAfter(counter, ahead), Chunks(tries[0].data);
      FirstOfWireOf(k, now, tries);
      CounterAdds(counter, ahead, |cs|);
      CounterMoves(counter, ahead);
      if tries[0].answer.Took? && cs != [] {
        WrongNoncesGiveNothing(k, counter, now, cs, WireOf(k, CounterAfter(now, |cs|), tries[1..]));
      } else {
        var rest := WireOf(k, CounterAfter(now, |cs|), tries[1..]);
        assert Frames(k, now, []) + rest == rest;
        MisplacedGivesNothing(k, counter, ahead + |cs|, tries[1..]);
      }
    }
  }

  /** What the reader gets of writes that are taken whole or blocked, however the caller retries: exactly what was
      completed before the first blocked write.  That write's frames are gone, their nonces are spent, and from
      then on nothing decrypts, although every later write is reported complete. */
  lemma {:induction false} BlockedWriteSilencesTheRest(k: Aead, counter: nat, tries: seq<Attempt>)
    requires Sound(k) && NonceBound(k) && counter < TWO64 && FrameCount(tries) < TWO64 / 2
    requires TookWhole(k, counter, tries)
    ensures Parse(k, counter, WireOf(k, counter, tries)).plain == Heard(tries)
    decreases |tries|
  {
    if tries != [] {
      var t := tries[0];
      var cs := Chunks(t.data);
      var next := CounterAfter(counter, |cs|);
      FirstOfWireOf(k, counter, tries);
      CounterMoves(counter, |cs|);
      if t.answer.Took? {
        ParseThroughFrames(k, counter, cs, WireOf(k, next, tries[1..]));
        BlockedWriteSilencesTheRest(k, next, tries[1..]);
      } else if t.data == [] {
        BlockedWriteSilencesTheRest(k, next, tries[1..]);
      } else {
        MisplacedGivesNothing(k, counter, |cs|, tries[1..]);
      }
    }
  }

  /** No write with data is completed after one with data was blocked. */
  predicate NothingAfterBlock(tries: seq<Attempt>) {
    tries != [] ==>
      && NothingAfterBlock(tries[1..])
      && (!tries[0].answer.Took? && tries[0].data != [] ==> Concat(Completed(tries[1..])) == [])
  }

  /** So the reader gets all that was reported complete exactly when nothing was completed after a block. */
  lemma {:induction false} AllHeardExactlyWhenNothingAfterBlock(tries: seq<Attempt>)
    ensures Heard(tries) == Concat(Completed(tries)) <==> NothingAfterBlock(tries)
    ensures |Heard(tries)| <= |Concat(Completed(tries))|
  {
    if tries != [] {
      var t, rest := tries[0], tries[1..];
      assert tries == [t] + rest;
      FirstCompleted(t, rest);
      AllHeardExactlyWhenNothingAfterBlock(rest);
      if t.answer.Took? {
        assert ([t.data] + Completed(rest))[1..] == Completed(rest);
        Cancel(t.data, Heard(rest), Concat(Completed(rest)));
      }
    }
  }

  lemma Cancel(a: Data, b: Data, c: Data)
    ensures a + b == a + c <==> b == c
  {
    assert b == (a + b)[|a|..] && c == (a + c)[|a|..];
  }

  // ----- such a cipher exists -----

  /** A cipher that hides nothing: the tag is the nonce in sixteen bytes. */
  function Transparent(): Aead {
    Aead((n: nat, p: Data) => p + Varint.PutBigEndian(n, TAG_LEN), OpenTransparent)
  }

  function OpenTransparent(n: nat, c: Data): Option<Data> {
    if |c| < TAG_LEN || c[|c| - TAG_LEN..] != Varint.PutBigEndian(n, TAG_LEN) then None else Some(c[..|c| - TAG_LEN])
  }

  lemma TransparentIsSoundAndBound()
    ensures Sound(Transparent()) && NonceBound(Transparent())
  {
    var k := Transparent();
    forall n: nat, p: Data
      ensures |k.seal(n, p)| == |p| + TAG_LEN && k.open(n, k.seal(n, p)) == Some(p)
    {
      var tag := Varint.PutBigEndian(n, TAG_LEN);
      assert (p + tag)[|p|..] == tag && (p + tag)[..|p|] == p;
    }
    forall m: nat, n: nat, p: Data | m < TWO64 && n < TWO64 && m != n ensures k.open(m, k.seal(n, p)).None? {
      var tag := Varint.PutBigEndian(n, TAG_LEN);
      assert (p + tag)[|p|..] == tag;
      TagsDiffer(m, n);
    }
  }

  lemma {:induction false} TagsDiffer(m: nat, n: nat)
    requires m < TWO64 && n < TWO64 && m != n
    ensures Varint.PutBigEndian(m, TAG_LEN) != Varint.PutBigEndian(n, TAG_LEN)
  {
    Varint.Powers();
    PowersGrow(8, TAG_LEN);
    Varint.BigEndianUndoesPut(m, TAG_LEN);
    Varint.BigEndianUndoesPut(n, TAG_LEN);
  }

  lemma {:induction false} PowersGrow(a: nat, b: nat)
    requires a <= b
    ensures Varint.Pow256(a) <= Varint.Pow256(b)
  {
    if a < b {
      PowersGrow(a, b - 1);
    }
  }
}
