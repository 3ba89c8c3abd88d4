/** The Shadowsocks AEAD stream: a writer that cuts data into sealed frames and an incremental reader
    that peeks at a frame's length before it commits to opening the frame.

    The AEAD is a pair of functions of nonce and text; keys, salts and nonces as bytes are left out. */
module SsStream {
  import opened Bytes

  const TAG_LEN := 16
  const MAX_PAYLOAD := 0x3FFF
  const LEN_CHUNK := 2 + TAG_LEN

  /** Sealing appends a tag; opening with the same nonce undoes it and may fail on anything else. */
  datatype Aead = Aead(seal: (nat, Data) -> Data, open: (nat, Data) -> Option<Data>)

  ghost predicate Sound(k: Aead) {
    && (forall n: nat, p: Data :: |k.seal(n, p)| == |p| + TAG_LEN && k.open(n, k.seal(n, p)) == Some(p))
    && (forall n: nat, c: Data :: k.open(n, c).Some? ==> |c| == |k.open(n, c).value| + TAG_LEN)
  }

  const TWO64 := 0x1_0000_0000_0000_0000

  /** The 64-bit counter wraps. */
  function Bump(counter: nat): nat { (counter + 1) % TWO64 }

  // ----- frames -----

  function Frame(k: Aead, counter: nat, payload: Data): Data {
    k.seal(counter, PutU16(|payload|)) + k.seal(Bump(counter), payload)
  }

  /** The frames of a list of chunks, the counter moving by two per frame. */
  function Frames(k: Aead, counter: nat, chunks: seq<Data>): Data
    decreases |chunks|
  {
    if chunks == [] then []
    else Frame(k, counter, chunks[0]) + Frames(k, Bump(Bump(counter)), chunks[1..])
  }

  function CounterAfter(counter: nat, frames: nat): nat
    decreases frames
  {
    if frames == 0 then counter else CounterAfter(Bump(Bump(counter)), frames - 1)
  }

  /** What reading the first frame of a ciphertext can come to. */
  datatype Head = Incomplete | BadLength | BadPayload | Good(payload: Data, used: nat)

  function ReadHead(k: Aead, counter: nat, c: Data): (h: Head)
    requires Sound(k)
    ensures h.Good? ==> LEN_CHUNK + TAG_LEN <= h.used <= |c| && h.used == LEN_CHUNK + |h.payload| + TAG_LEN
  {
    if |c| < LEN_CHUNK then Incomplete else
      var len := k.open(counter, c[..LEN_CHUNK]);
      if len.None? then BadLength else
        assert |len.value| == 2;
        var need := LEN_CHUNK + U16(len.value[0], len.value[1]) + TAG_LEN;
        if |c| < need then Incomplete else
          var payload := k.open(Bump(counter), c[LEN_CHUNK..need]);
          if payload.None? then BadPayload else Good(payload.value, need)
  }

  /** The plaintext of the longest run of good frames, how much ciphertext they take and how many they are. */
  datatype Parsed = Parsed(plain: Data, used: nat, frames: nat)

  function Parse(k: Aead, counter: nat, c: Data): (r: Parsed)
    requires Sound(k)
    ensures r.used <= |c|
    decreases |c|
  {
    var h := ReadHead(k, counter, c);
    if !h.Good? then Parsed([], 0, 0) else
      var rest := Parse(k, Bump(Bump(counter)), c[h.used..]);
      Parsed(h.payload + rest.plain, h.used + rest.used, rest.frames + 1)
  }

  /** More ciphertext behind a decided first frame changes nothing about it. */
  lemma HeadIsStable(k: Aead, counter: nat, c: Data, more: Data)
    requires Sound(k) && !ReadHead(k, counter, c).Incomplete?
    ensures ReadHead(k, counter, c + more) == ReadHead(k, counter, c)
  {
    assert (c + more)[..LEN_CHUNK] == c[..LEN_CHUNK];
    var len := k.open(counter, c[..LEN_CHUNK]);
    if len.Some? {
      var need := LEN_CHUNK + U16(len.value[0], len.value[1]) + TAG_LEN;
      assert (c + more)[LEN_CHUNK..need] == c[LEN_CHUNK..need];
    }
  }

  lemma HeadOfFrame(k: Aead, counter: nat, payload: Data, more: Data)
    requires Sound(k) && |payload| < 0x1_0000
    ensures |Frame(k, counter, payload)| == LEN_CHUNK + |payload| + TAG_LEN == |payload| + 34
    ensures ReadHead(k, counter, Frame(k, counter, payload) + more) == Good(payload, |Frame(k, counter, payload)|)
  {
    var len, body := k.seal(counter, PutU16(|payload|)), k.seal(Bump(counter), payload);
    var c := len + body;
    assert c[..LEN_CHUNK] == len && c[LEN_CHUNK..|c|] == body;
    HeadIsStable(k, counter, c, more);
  }

  /** Parsing frames gives back their chunks and nothing is left over. */
  lemma {:induction false} ParseUndoesFrames(k: Aead, counter: nat, chunks: seq<Data>)
    requires Sound(k) && forall i :: 0 <= i < |chunks| ==> |chunks[i]| < 0x1_0000
    ensures var c := Frames(k, counter, chunks); Parse(k, counter, c) == Parsed(Concat(chunks), |c|, |chunks|)
    decreases |chunks|
  {
    if chunks != [] {
      var first := Frame(k, counter, chunks[0]);
      var rest := Frames(k, Bump(Bump(counter)), chunks[1..]);
      HeadOfFrame(k, counter, chunks[0], rest);
      assert (first + rest)[|first|..] == rest;
      ParseUndoesFrames(k, Bump(Bump(counter)), chunks[1..]);
    }
  }

  // ----- the reader -----

  /** How the underlying stream answers a poll; at most 4096 bytes arrive at a time. */
  datatype Event = NotReady | Arrived(bytes: Data) | Eof | Broken

  function Arrivals(es: seq<Event>): Data {
    if es == [] then [] else (if es[0].Arrived? then es[0].bytes else []) + Arrivals(es[1..])
  }

  datatype Reader = Reader(counter: nat, readBuf: Data, rawBuf: Data, incoming: seq<Event>)

  datatype Outcome = Ready(out: Data) | Failed | Pending

  /** Hands out as much of the decrypted buffer as the caller has room for. */
  function Deliver(r: Reader, cap: nat): (Reader, Outcome) {
    var n := Min(cap, |r.readBuf|);
    (r.(readBuf := r.readBuf[n..]), Ready(r.readBuf[..n]))
  }

  /** One `poll_read` into a buffer with room for `cap` bytes. */
  function Poll(k: Aead, r: Reader, cap: nat): (Reader, Outcome)
    requires Sound(k)
  {
    if r.readBuf != [] then Deliver(r, cap) else Fill(k, r, cap)
  }

  /** The loop of `poll_read`: open a frame as soon as all of it is buffered, otherwise pull. */
  function Fill(k: Aead, r: Reader, cap: nat): (Reader, Outcome)
    requires Sound(k)
    decreases |r.incoming|
  {
    var h := ReadHead(k, r.counter, r.rawBuf);
    match h
    case BadLength => (r, Failed)
    case BadPayload => (r.(counter := Bump(r.counter)), Failed)
    case Good(payload, used) =>
      Deliver(Reader(Bump(Bump(r.counter)), r.readBuf + payload, r.rawBuf[used..], r.incoming), cap)
    case Incomplete =>
      if r.incoming == [] then (r, Pending) else
        var rest := r.(incoming := r.incoming[1..]);
        match r.incoming[0]
        case NotReady => (rest, Pending)
        case Broken => (rest, Failed)
        case Eof => (rest, Ready([]))
        case Arrived(bytes) =>
          if bytes == [] then (rest, Ready([])) else Fill(k, rest.(rawBuf := r.rawBuf + bytes), cap)
  }

  /** Everything the reader will ever be able to deliver, given what is buffered and what is to come. */
  function Remaining(k: Aead, r: Reader): Data
    requires Sound(k)
  {
    r.readBuf + Parse(k, r.counter, r.rawBuf + Arrivals(r.incoming)).plain
  }

  function FramesLeft(k: Aead, r: Reader): nat
    requires Sound(k)
  {
    Parse(k, r.counter, r.rawBuf + Arrivals(r.incoming)).frames
  }

  /** A poll that does not fail conserves the plaintext: what it hands out and what then remains is what
      remained before.  Its counter moves by two for each frame it opens and by nothing otherwise.  One that
      cannot decrypt has nothing left to hand out and moves the counter by at most one, and one that is pending
      with no input to come is done. */
  ghost predicate Conserves(k: Aead, r: Reader, cap: nat, r': Reader, o: Outcome)
    requires Sound(k)
  {
    (Broken in r'.incoming ==> Broken in r.incoming) &&
    match o
    case Ready(out) =>
      out + Remaining(k, r') == Remaining(k, r) && |out| <= cap && CounterFollows(k, r, r')
    case Pending =>
      && Remaining(k, r') == Remaining(k, r) && CounterFollows(k, r, r')
      && (r'.incoming == [] ==> Remaining(k, r') == [])
    case Failed =>
      (Remaining(k, r) == [] || Broken in r.incoming) && (r'.counter == r.counter || r'.counter == Bump(r.counter))
  }

  ghost predicate CounterFollows(k: Aead, r: Reader, r': Reader)
    requires Sound(k)
  {
    FramesLeft(k, r') <= FramesLeft(k, r)
    && r'.counter == CounterAfter(r.counter, FramesLeft(k, r) - FramesLeft(k, r'))
  }

  lemma {:induction false} OpeningConserves(k: Aead, r: Reader, cap: nat)
    requires Sound(k) && r.readBuf == [] && ReadHead(k, r.counter, r.rawBuf).Good?
    ensures Conserves(k, r, cap, Fill(k, r, cap).0, Fill(k, r, cap).1)
  {
    var h := ReadHead(k, r.counter, r.rawBuf);
    ParseAfterHead(k, r.counter, r.rawBuf, Arrivals(r.incoming));
    var (r', o) := Fill(k, r, cap);
    assert r.readBuf + h.payload == h.payload;
    Rejoin(h.payload, Min(cap, |h.payload|), Parse(k, r'.counter, r'.rawBuf + Arrivals(r'.incoming)).plain);
    assert CounterAfter(r.counter, 1) == CounterAfter(Bump(Bump(r.counter)), 0);
  }

  lemma {:induction false} ParseAfterHead(k: Aead, counter: nat, c: Data, more: Data)
    requires Sound(k) && ReadHead(k, counter, c).Good?
    ensures var h := ReadHead(k, counter, c);
      var whole, rest := Parse(k, counter, c + more), Parse(k, Bump(Bump(counter)), c[h.used..] + more);
      whole.plain == h.payload + rest.plain && whole.frames == rest.frames + 1
  {
    var h := ReadHead(k, counter, c);
    HeadIsStable(k, counter, c, more);
    assert (c + more)[h.used..] == c[h.used..] + more;
  }

  lemma Rejoin(s: Data, n: nat, tail: Data)
    requires n <= |s|
    ensures s[..n] + (s[n..] + tail) == s + tail
  {
  }

  /** Moving an arrival into the raw buffer leaves everything that matters the same. */
  lemma PullingChangesNothing(k: Aead, r: Reader, next: Reader)
    requires Sound(k) && r.incoming != []
    requires next == r.(incoming := r.incoming[1..],
                        rawBuf := r.rawBuf + if r.incoming[0].Arrived? then r.incoming[0].bytes else [])
    ensures Remaining(k, next) == Remaining(k, r) && FramesLeft(k, next) == FramesLeft(k, r)
  {
    assert next.rawBuf + Arrivals(next.incoming) == r.rawBuf + Arrivals(r.incoming);
  }

  /** The polls that stop because the underlying stream has no bytes to give. */
  lemma {:induction false} StoppingConserves(k: Aead, r: Reader, cap: nat)
    requires Sound(k) && r.readBuf == [] && ReadHead(k, r.counter, r.rawBuf).Incomplete?
    requires r.incoming == [] || !r.incoming[0].Arrived? || r.incoming[0].bytes == []
    ensures Conserves(k, r, cap, Fill(k, r, cap).0, Fill(k, r, cap).1)
  {
    var r' := Fill(k, r, cap).0;
    assert CounterAfter(r.counter, 0) == r.counter;
    if r.incoming != [] {
      assert r.rawBuf + [] == r.rawBuf;
      PullingChangesNothing(k, r, r');
    }
    if r'.incoming == [] {
      assert r'.rawBuf + Arrivals([]) == r.rawBuf;
    }
  }

  lemma {:induction false} FillConserves(k: Aead, r: Reader, cap: nat)
    requires Sound(k) && r.readBuf == []
    ensures Conserves(k, r, cap, Fill(k, r, cap).0, Fill(k, r, cap).1)
    decreases |r.incoming|
  {
    var h := ReadHead(k, r.counter, r.rawBuf);
    if h.Good? {
      OpeningConserves(k, r, cap);
    } else if !h.Incomplete? {
      HeadIsStable(k, r.counter, r.rawBuf, Arrivals(r.incoming));
    } else if r.incoming != [] && r.incoming[0].Arrived? && r.incoming[0].bytes != [] {
      var next := r.(incoming := r.incoming[1..], rawBuf := r.rawBuf + r.incoming[0].bytes);
      PullingChangesNothing(k, r, next);
      FillConserves(k, next, cap);
    } else {
      StoppingConserves(k, r, cap);
    }
  }

  lemma PollConserves(k: Aead, r: Reader, cap: nat)
    requires Sound(k)
    ensures Conserves(k, r, cap, Poll(k, r, cap).0, Poll(k, r, cap).1)
  {
    if r.readBuf == [] {
      FillConserves(k, r, cap);
    }
  }

  /** A run of polls with the given buffer sizes, up to the first failure; `last` is the last outcome. */
  datatype Run = Run(reader: Reader, delivered: Data, last: Outcome)

  function Polls(k: Aead, r: Reader, caps: seq<nat>): Run
    requires Sound(k)
  {
    if caps == [] then Run(r, [], Ready([])) else
      var before := Polls(k, r, caps[..|caps| - 1]);
      if before.last.Failed? then before else
        var (r', o) := Poll(k, before.reader, caps[|caps| - 1]);
        Run(r', if o.Ready? then before.delivered + o.out else before.delivered, o)
  }

  lemma CounterFollowsTwice(k: Aead, a: Reader, b: Reader, c: Reader)
    requires Sound(k) && CounterFollows(k, a, b) && CounterFollows(k, b, c)
    ensures CounterFollows(k, a, c)
  {
    CounterAdds(a.counter, FramesLeft(k, a) - FramesLeft(k, b), FramesLeft(k, b) - FramesLeft(k, c));
  }

  lemma {:induction false} CounterAdds(counter: nat, m: nat, n: nat)
    ensures CounterAfter(CounterAfter(counter, m), n) == CounterAfter(counter, m + n)
    decreases m
  {
    if m > 0 {
      CounterAdds(Bump(Bump(counter)), m - 1, n);
    }
  }

  /** The bytes of a run so far followed by those that remain are always the same; after a failure that is not
      the stream's own nothing remains. */
  ghost predicate RunConserves(k: Aead, r: Reader, run: Run)
    requires Sound(k)
  {
    if run.last.Failed? then
      run.delivered <= Remaining(k, r) && (Broken !in r.incoming ==> run.delivered == Remaining(k, r))
    else
      && run.delivered + Remaining(k, run.reader) == Remaining(k, r)
      && CounterFollows(k, r, run.reader)
      && (Broken in run.reader.incoming ==> Broken in r.incoming)
      && (run.last.Pending? && run.reader.incoming == [] ==> Remaining(k, run.reader) == [])
  }

  lemma OneMorePollConserves(k: Aead, r: Reader, run: Run, cap: nat)
    requires Sound(k) && RunConserves(k, r, run) && !run.last.Failed?
    ensures var (r', o) := Poll(k, run.reader, cap);
      RunConserves(k, r, Run(r', if o.Ready? then run.delivered + o.out else run.delivered, o))
  {
    var (r', o) := Poll(k, run.reader, cap);
    PollConserves(k, run.reader, cap);
    if o.Failed? {
      PrefixOfSum(run.delivered, Remaining(k, run.reader), Remaining(k, r));
    } else {
      CounterFollowsTwice(k, r, run.reader, r');
      if o.Ready? {
        Reassociate(run.delivered, o.out, Remaining(k, r'));
      }
    }
  }

  lemma PrefixOfSum(a: Data, b: Data, whole: Data)
    requires a + b == whole
    ensures a <= whole && (b == [] ==> a == whole)
  {
    assert a == whole[..|a|];
  }

  lemma {:induction false} RunsConserve(k: Aead, r: Reader, caps: seq<nat>)
    requires Sound(k)
    ensures RunConserves(k, r, Polls(k, r, caps))
  {
    if caps == [] {
      assert CounterAfter(r.counter, 0) == r.counter;
      assert [] + Remaining(k, r) == Remaining(k, r);
    } else {
      var before := Polls(k, r, caps[..|caps| - 1]);
      RunsConserve(k, r, caps[..|caps| - 1]);
      if !before.last.Failed? {
        OneMorePollConserves(k, r, before, caps[|caps| - 1]);
      }
    }
  }

  /** The run has come to its end: the input has run out, or the ciphertext cannot be decrypted any further. */
  ghost predicate AtEnd(r: Reader, run: Run) {
    (run.last.Pending? && run.reader.incoming == []) || (run.last.Failed? && Broken !in r.incoming)
  }

  /** What a run has made of the plaintext of the whole ciphertext: a prefix is delivered, all of it by the end,
      and until a failure the counter has moved by two for each frame opened. */
  ghost predicate Delivers(k: Aead, r: Reader, run: Run, whole: Parsed)
    requires Sound(k)
  {
    && run.delivered <= whole.plain
    && (AtEnd(r, run) ==> run.delivered == whole.plain)
    && (!run.last.Failed? ==>
          && FramesLeft(k, run.reader) <= whole.frames
          && run.reader.counter == CounterAfter(r.counter, whole.frames - FramesLeft(k, run.reader)))
  }

  /** Whatever the ciphertext, the caller's buffer sizes and the cuts between arrivals: a run delivers a prefix
      of the plaintext of the concatenated ciphertext, and all of it by its end, be that the end of the input or
      a frame that does not decrypt. */
  lemma {:induction false} PollsDeliverThePlaintext(k: Aead, r: Reader, caps: seq<nat>)
    requires Sound(k) && r.readBuf == [] && r.rawBuf == []
    ensures Delivers(k, r, Polls(k, r, caps), Parse(k, r.counter, Arrivals(r.incoming)))
  {
    RunsConserve(k, r, caps);
    FreshReaderHasEverything(k, r);
    DeliversPrefix(k, r, Polls(k, r, caps), Parse(k, r.counter, Arrivals(r.incoming)));
  }

  lemma DeliversPrefix(k: Aead, r: Reader, run: Run, whole: Parsed)
    requires Sound(k) && RunConserves(k, r, run) && Remaining(k, r) == whole.plain && FramesLeft(k, r) == whole.frames
    ensures Delivers(k, r, run, whole)
  {
    if !run.last.Failed? {
      PrefixOfSum(run.delivered, Remaining(k, run.reader), Remaining(k, r));
    }
  }

  lemma {:induction false} FreshReaderHasEverything(k: Aead, r: Reader)
    requires Sound(k) && r.readBuf == [] && r.rawBuf == []
    ensures var whole := Parse(k, r.counter, Arrivals(r.incoming));
      Remaining(k, r) == whole.plain && FramesLeft(k, r) == whole.frames
  {
    assert r.rawBuf + Arrivals(r.incoming) == Arrivals(r.incoming);
  }

  // ----- whole frames always come through -----

  /** Buffered and still to come: whole good frames, over a stream that does not break. */
  ghost predicate Clean(k: Aead, r: Reader)
    requires Sound(k)
  {
    var c := r.rawBuf + Arrivals(r.incoming);
    Broken !in r.incoming && Parse(k, r.counter, c).used == |c|
  }

  lemma {:induction false} FillStaysClean(k: Aead, r: Reader, cap: nat)
    requires Sound(k) && Clean(k, r)
    ensures !Fill(k, r, cap).1.Failed? && Clean(k, Fill(k, r, cap).0)
    decreases |r.incoming|
  {
    var h := ReadHead(k, r.counter, r.rawBuf);
    if !h.Incomplete? {
      OpeningStaysClean(k, r, cap);
    } else if r.incoming != [] {
      var e := r.incoming[0];
      var next := r.(incoming := r.incoming[1..], rawBuf := r.rawBuf + if e.Arrived? then e.bytes else []);
      PulledStaysClean(k, r, next);
      if e.Arrived? && e.bytes != [] {
        FillStaysClean(k, next, cap);
      } else {
        assert next == r.(incoming := r.incoming[1..]);
      }
    }
  }

  lemma PulledStaysClean(k: Aead, r: Reader, next: Reader)
    requires Sound(k) && Clean(k, r) && r.incoming != []
    requires next == r.(incoming := r.incoming[1..],
                        rawBuf := r.rawBuf + if r.incoming[0].Arrived? then r.incoming[0].bytes else [])
    ensures Clean(k, next)
  {
    assert next.rawBuf + Arrivals(next.incoming) == r.rawBuf + Arrivals(r.incoming);
  }

  lemma {:induction false} OpeningStaysClean(k: Aead, r: Reader, cap: nat)
    requires Sound(k) && Clean(k, r) && !ReadHead(k, r.counter, r.rawBuf).Incomplete?
    ensures !Fill(k, r, cap).1.Failed? && Clean(k, Fill(k, r, cap).0)
  {
    var h, more := ReadHead(k, r.counter, r.rawBuf), Arrivals(r.incoming);
    HeadIsStable(k, r.counter, r.rawBuf, more);
    if h.Good? {
      assert (r.rawBuf + more)[h.used..] == r.rawBuf[h.used..] + more;
    }
  }

  lemma {:induction false} PollsStayClean(k: Aead, r: Reader, caps: seq<nat>)
    requires Sound(k) && Clean(k, r)
    ensures !Polls(k, r, caps).last.Failed? && Clean(k, Polls(k, r, caps).reader)
  {
    if caps != [] {
      PollsStayClean(k, r, caps[..|caps| - 1]);
      var before := Polls(k, r, caps[..|caps| - 1]).reader;
      if before.readBuf == [] {
        FillStaysClean(k, before, caps[|caps| - 1]);
      }
    }
  }

  /** Nothing more can happen: no input is to come and no frame is complete. */
  ghost predicate Settled(k: Aead, r: Reader)
    requires Sound(k)
  {
    r.readBuf == [] && r.incoming == [] && ReadHead(k, r.counter, r.rawBuf).Incomplete?
  }

  /** What is still to be done: answers to take, frames to open, bytes to hand out. */
  ghost function Left(k: Aead, r: Reader): nat
    requires Sound(k)
  {
    |r.incoming| + FramesLeft(k, r) + |Remaining(k, r)|
  }

  lemma {:induction false} FillProgresses(k: Aead, r: Reader, cap: nat)
    requires Sound(k) && r.readBuf == []
    ensures var (r', o) := Fill(k, r, cap);
      o.Failed? || (o.Pending? && Settled(k, r')) || Left(k, r') < Left(k, r)
    decreases |r.incoming|
  {
    var h := ReadHead(k, r.counter, r.rawBuf);
    if h.Good? {
      OpeningProgresses(k, r, cap);
    } else if h.Incomplete? && r.incoming != [] {
      var e := r.incoming[0];
      var next := r.(incoming := r.incoming[1..], rawBuf := r.rawBuf + if e.Arrived? then e.bytes else []);
      PullingChangesNothing(k, r, next);
      assert r.rawBuf + [] == r.rawBuf;
      if e.Arrived? && e.bytes != [] {
        FillProgresses(k, next, cap);
      }
    }
  }

  lemma {:induction false} OpeningProgresses(k: Aead, r: Reader, cap: nat)
    requires Sound(k) && r.readBuf == [] && ReadHead(k, r.counter, r.rawBuf).Good?
    ensures Left(k, Fill(k, r, cap).0) < Left(k, r)
  {
    var h := ReadHead(k, r.counter, r.rawBuf);
    ParseAfterHead(k, r.counter, r.rawBuf, Arrivals(r.incoming));
    assert r.readBuf + h.payload == h.payload;
  }

  lemma {:induction false} PollsProgress(k: Aead, r: Reader, caps: seq<nat>)
    requires Sound(k) && forall i :: 0 <= i < |caps| ==> caps[i] >= 1
    ensures var run := Polls(k, r, caps);
      run.last.Failed? || (run.last.Pending? && Settled(k, run.reader)) || Left(k, run.reader) + |caps| <= Left(k, r)
  {
    if caps != [] {
      var front, cap := caps[..|caps| - 1], caps[|caps| - 1];
      PollsProgress(k, r, front);
      var before := Polls(k, r, front).reader;
      if before.readBuf == [] {
        FillProgresses(k, before, cap);
      }
    }
  }

  /** A reader polled often enough, with room for at least one byte each time, hands out all of the plaintext,
      whatever the arrivals and the buffer sizes. */
  lemma {:induction false} EnoughPollsDeliverAll(k: Aead, r: Reader, caps: seq<nat>)
    requires Sound(k) && r.readBuf == [] && r.rawBuf == [] && Clean(k, r)
    requires |caps| > Left(k, r) && forall i :: 0 <= i < |caps| ==> caps[i] >= 1
    ensures Polls(k, r, caps).delivered == Parse(k, r.counter, Arrivals(r.incoming)).plain
    ensures Polls(k, r, caps).reader.counter ==
            CounterAfter(r.counter, Parse(k, r.counter, Arrivals(r.incoming)).frames)
  {
    PollsStayClean(k, r, caps);
    PollsProgress(k, r, caps);
    PollsDeliverThePlaintext(k, r, caps);
    var last := Polls(k, r, caps).reader;
    assert last.rawBuf + Arrivals([]) == last.rawBuf;
  }

  /** Two readers of the same ciphertext, good or bad, cut differently and read with different buffers, deliver
      the same bytes: at any time one is ahead of the other, and once both are at their end they are level. */
  lemma {:induction false} SplittingIsInvisible(k: Aead, r1: Reader, caps1: seq<nat>, r2: Reader, caps2: seq<nat>)
    requires Sound(k)
    requires r1.readBuf == [] && r1.rawBuf == [] && r2.readBuf == [] && r2.rawBuf == []
    requires r1.counter == r2.counter && Arrivals(r1.incoming) == Arrivals(r2.incoming)
    ensures var a, b := Polls(k, r1, caps1), Polls(k, r2, caps2);
      && (a.delivered <= b.delivered || b.delivered <= a.delivered)
      && (AtEnd(r1, a) && AtEnd(r2, b) ==> a.delivered == b.delivered)
  {
    PollsDeliverThePlaintext(k, r1, caps1);
    PollsDeliverThePlaintext(k, r2, caps2);
  }

  // ----- an empty read means the end -----

  /** No frame is empty. */
  ghost predicate Solid(k: Aead, counter: nat, c: Data)
    requires Sound(k)
    decreases |c|
  {
    var h := ReadHead(k, counter, c);
    h.Good? ==> h.payload != [] && Solid(k, Bump(Bump(counter)), c[h.used..])
  }

  /** The underlying stream does not report its end. */
  predicate Endless(es: seq<Event>) {
    forall i :: 0 <= i < |es| ==> !es[i].Eof? && (es[i].Arrived? ==> es[i].bytes != [])
  }

  ghost predicate Flowing(k: Aead, r: Reader)
    requires Sound(k)
  {
    Endless(r.incoming) && Solid(k, r.counter, r.rawBuf + Arrivals(r.incoming))
  }

  lemma {:induction false} FillFlows(k: Aead, r: Reader, cap: nat)
    requires Sound(k) && Flowing(k, r) && r.readBuf == [] && cap >= 1
    ensures var (r', o) := Fill(k, r, cap); (o.Ready? ==> o.out != []) && (!o.Failed? ==> Flowing(k, r'))
    decreases |r.incoming|
  {
    var h := ReadHead(k, r.counter, r.rawBuf);
    var more := Arrivals(r.incoming);
    if h.Good? {
      HeadIsStable(k, r.counter, r.rawBuf, more);
      assert (r.rawBuf + more)[h.used..] == r.rawBuf[h.used..] + more;
      assert r.readBuf + h.payload == h.payload;
    } else if h.Incomplete? && r.incoming != [] {
      var e := r.incoming[0];
      var next := r.(incoming := r.incoming[1..], rawBuf := r.rawBuf + if e.Arrived? then e.bytes else []);
      assert next.rawBuf + Arrivals(next.incoming) == r.rawBuf + more;
      assert r.rawBuf + [] == r.rawBuf;
      if e.Arrived? {
        FillFlows(k, next, cap);
      }
    }
  }

  /** A caller takes an empty read for the end of the stream: as long as no frame is empty and the stream
      underneath does not end, no read into a buffer with room is empty. */
  lemma {:induction false} NoReadIsEmpty(k: Aead, r: Reader, caps: seq<nat>)
    requires Sound(k) && Flowing(k, r) && r.readBuf == [] && caps != []
    requires forall i :: 0 <= i < |caps| ==> caps[i] >= 1
    ensures var run := Polls(k, r, caps);
      (run.last.Ready? ==> run.last.out != []) && (!run.last.Failed? ==> Flowing(k, run.reader))
  {
    var front, cap := caps[..|caps| - 1], caps[|caps| - 1];
    if front != [] {
      NoReadIsEmpty(k, r, front);
    }
    var before := Polls(k, r, front);
    if !before.last.Failed? && before.reader.readBuf == [] {
      FillFlows(k, before.reader, cap);
    }
  }

  ghost predicate AllSolid(k: Aead, r: Reader)
    requires Sound(k)
  {
    Solid(k, r.counter, r.rawBuf + Arrivals(r.incoming))
  }

  /** The stream underneath neither ends nor breaks. */
  predicate Steady(es: seq<Event>) { Endless(es) && Broken !in es }

  /** What a poll that fills the buffer says about the frames still to come. */
  ghost predicate Tells(k: Aead, r: Reader, r': Reader, o: Outcome)
    requires Sound(k)
  {
    && (o == Ready([]) ==> !AllSolid(k, r))
    && (o.Failed? ==> AllSolid(k, r))
    && (o != Ready([]) && !o.Failed? ==> (AllSolid(k, r) <==> AllSolid(k, r')))
  }

  lemma {:induction false} FillTells(k: Aead, r: Reader, cap: nat)
    requires Sound(k) && Steady(r.incoming) && r.readBuf == [] && cap >= 1
    ensures var (r', o) := Fill(k, r, cap); Tells(k, r, r', o) && Steady(r'.incoming)
    decreases |r.incoming|
  {
    var h := ReadHead(k, r.counter, r.rawBuf);
    var more := Arrivals(r.incoming);
    if !h.Incomplete? {
      HeadIsStable(k, r.counter, r.rawBuf, more);
      if h.Good? {
        assert (r.rawBuf + more)[h.used..] == r.rawBuf[h.used..] + more;
        assert r.readBuf + h.payload == h.payload;
      }
    } else if r.incoming != [] {
      var e := r.incoming[0];
      var next := r.(incoming := r.incoming[1..], rawBuf := r.rawBuf + if e.Arrived? then e.bytes else []);
      assert next.rawBuf + Arrivals(next.incoming) == r.rawBuf + more;
      assert r.rawBuf + [] == r.rawBuf;
      if e.Arrived? {
        FillTells(k, next, cap);
      }
    }
  }

  predicate SomeReadIsEmpty(k: Aead, r: Reader, caps: seq<nat>)
    requires Sound(k)
  {
    exists n :: 1 <= n <= |caps| && Polls(k, r, caps[..n]).last == Ready([])
  }

  lemma {:induction false} PollsTell(k: Aead, r: Reader, caps: seq<nat>)
    requires Sound(k) && Steady(r.incoming) && !SomeReadIsEmpty(k, r, caps)
    requires forall i :: 0 <= i < |caps| ==> caps[i] >= 1
    ensures var run := Polls(k, r, caps);
      && Steady(run.reader.incoming)
      && (if run.last.Failed? then AllSolid(k, r) else AllSolid(k, r) <==> AllSolid(k, run.reader))
  {
    if caps != [] {
      var front, cap := caps[..|caps| - 1], caps[|caps| - 1];
      assert caps[..|caps|] == caps;
      forall n | 1 <= n <= |front| ensures Polls(k, r, front[..n]).last != Ready([]) {
        assert front[..n] == caps[..n];
      }
      PollsTell(k, r, front);
      var before := Polls(k, r, front);
      if !before.last.Failed? && before.reader.readBuf == [] {
        FillTells(k, before.reader, cap);
      }
    }
  }

  /** A caller takes an empty read for the end of the stream.  Over a steady stream, and whatever the cuts and the
      buffers, such a read comes exactly when some frame is empty, wherever it stands. */
  lemma {:induction false} EmptyReadExactlyWhenEmptyFrame(k: Aead, r: Reader, caps: seq<nat>)
    requires Sound(k) && Steady(r.incoming) && r.readBuf == [] && r.rawBuf == []
    requires |caps| > Left(k, r) && forall i :: 0 <= i < |caps| ==> caps[i] >= 1
    ensures SomeReadIsEmpty(k, r, caps) <==> !Solid(k, r.counter, Arrivals(r.incoming))
  {
    assert r.rawBuf + Arrivals(r.incoming) == Arrivals(r.incoming);
    if Solid(k, r.counter, Arrivals(r.incoming)) {
      forall n | 1 <= n <= |caps| ensures Polls(k, r, caps[..n]).last != Ready([]) {
        NoReadIsEmpty(k, r, caps[..n]);
      }
    }
    if !SomeReadIsEmpty(k, r, caps) {
      PollsTell(k, r, caps);
      PollsProgress(k, r, caps);
      var last := Polls(k, r, caps).reader;
      if Settled(k, last) {
        SettledIsSolid(k, last);
      }
    }
  }

  lemma SettledIsSolid(k: Aead, r: Reader)
    requires Sound(k) && Settled(k, r)
    ensures AllSolid(k, r)
  {
    assert r.rawBuf + Arrivals([]) == r.rawBuf;
  }

  lemma {:induction false} FramesAreSolid(k: Aead, counter: nat, chunks: seq<Data>)
    requires Sound(k) && forall i :: 0 <= i < |chunks| ==> 1 <= |chunks[i]| < 0x1_0000
    ensures Solid(k, counter, Frames(k, counter, chunks))
    decreases |chunks|
  {
    if chunks != [] {
      var first, rest := Frame(k, counter, chunks[0]), Frames(k, Bump(Bump(counter)), chunks[1..]);
      HeadOfFrame(k, counter, chunks[0], rest);
      assert (first + rest)[|first|..] == rest;
      FramesAreSolid(k, Bump(Bump(counter)), chunks[1..]);
    }
  }

  // ----- the writer -----

  /** `data` cut into pieces of at most `MAX_PAYLOAD` bytes. */
  function Chunks(data: Data): (cs: seq<Data>)
    ensures Concat(cs) == data
    ensures forall i :: 0 <= i < |cs| ==> 1 <= |cs[i]| <= MAX_PAYLOAD
    decreases |data|
  {
    if data == [] then [] else
      var n := Min(MAX_PAYLOAD, |data|);
      assert data[..n] + data[n..] == data;
      [data[..n]] + Chunks(data[n..])
  }

  /** Every piece but the last is as long as a frame can carry. */
  lemma {:induction false} AllButTheLastAreFull(data: Data, i: nat)
    requires i < |Chunks(data)| - 1
    ensures |Chunks(data)[i]| == 0x3FFF
    decreases i
  {
    if |data| > 0x3FFF && i > 0 {
      AllButTheLastAreFull(data[0x3FFF..], i - 1);
    }
  }

  lemma {:induction false} NextChunk(data: Data, offset: nat, end: nat)
    requires offset < |data| && end == Min(offset + MAX_PAYLOAD, |data|)
    ensures Chunks(data[offset..]) == [data[offset..end]] + Chunks(data[end..])
  {
    var left, n := data[offset..], end - offset;
    assert left[..n] == data[offset..end] && left[n..] == data[end..];
  }

  lemma {:induction false} OneMoreFrame(k: Aead, counter: nat, done: seq<Data>, chunk: Data)
    ensures var now := CounterAfter(counter, |done|);
      && Frames(k, counter, done + [chunk]) == Frames(k, counter, done) + Frame(k, now, chunk)
      && CounterAfter(counter, |done| + 1) == Bump(Bump(now))
  {
    var now := CounterAfter(counter, |done|);
    FramesAppend(k, counter, done, [chunk]);
    assert Frames(k, now, [chunk]) == Frame(k, now, chunk) + Frames(k, Bump(Bump(now)), []);
    CounterAdds(counter, |done|, 1);
    assert CounterAfter(now, 1) == CounterAfter(Bump(Bump(now)), 0);
  }

  lemma MoveOver(done: seq<Data>, chunk: Data, left: seq<Data>)
    ensures (done + [chunk]) + left == done + ([chunk] + left)
  {
  }

  /** What `ss_wrap_xhttp` puts on the wire before the stream is handed over. */
  function Preamble(k: Aead, salt: Data, first: Data): Data { salt + Frame(k, 0, first) }

  /** How the underlying stream answers a write: it takes some of the bytes, none for now, or fails. */
  datatype Answer = Took(n: nat) | Busy | Down

  datatype WriteResult = Wrote(n: nat) | WouldBlock | WriteError

  function Front(s: Data, n: nat): Data { s[..Min(n, |s|)] }

  class SsXhttpStream {
    const k: Aead
    const salt: Data
    var saltSent: bool
    var enc: nat
    var dec: nat
    var readBuf: Data
    var rawBuf: Data
    /** The answers the underlying stream still has for us. */
    var incoming: seq<Event>

    ghost function View(): Reader
      reads this
    {
      Reader(dec, readBuf, rawBuf, incoming)
    }

    constructor (k: Aead, enc: nat, salt: Data, incoming: seq<Event>)
      ensures this.k == k && this.salt == salt && !saltSent && this.enc == enc
      ensures View() == Reader(0, [], [], incoming)
    {
      this.k, this.salt, this.saltSent, this.enc := k, salt, false, enc;
      dec, readBuf, rawBuf, this.incoming := 0, [], [], incoming;
    }

    /** `ss_wrap_xhttp`: the salt and the first frame go out before the stream exists, so the stream itself
        has no salt left to send. */
    static method Wrap(k: Aead, salt: Data, first: Data, incoming: seq<Event>)
      returns (s: SsXhttpStream, wire: Data)
      ensures wire == Preamble(k, salt, first)
      ensures fresh(s) && s.k == k && s.salt == [] && s.enc == CounterAfter(0, 1)
      ensures s.View() == Reader(0, [], [], incoming)
    {
      wire := salt;
      wire := wire + k.seal(0, PutU16(|first|));
      wire := wire + k.seal(Bump(0), first);
      assert wire == Preamble(k, salt, first);
      assert CounterAfter(0, 1) == CounterAfter(Bump(Bump(0)), 0);
      s := new SsXhttpStream(k, Bump(Bump(0)), [], incoming);
    }

    method PollRead(cap: nat) returns (o: Outcome)
      requires Sound(k)
      modifies this`dec, this`readBuf, this`rawBuf, this`incoming
      ensures (View(), o) == Poll(k, old(View()), cap)
    {
      if readBuf != [] {
        o := TakeOut(cap);
        return;
      }
      while true
        invariant readBuf == [] && Fill(k, View(), cap) == Fill(k, old(View()), cap)
        decreases |incoming|
      {
        if |rawBuf| >= LEN_CHUNK {
          var peek := k.open(dec, rawBuf[..LEN_CHUNK]);
          if peek.None? {
            return Failed;
          }
          var payloadLen := U16(peek.value[0], peek.value[1]);
          var total := LEN_CHUNK + payloadLen + TAG_LEN;
          if |rawBuf| >= total {
            dec := Bump(dec);
            var payload := k.open(dec, rawBuf[LEN_CHUNK..total]);
            if payload.None? {
              return Failed;
            }
            dec := Bump(dec);
            rawBuf := rawBuf[total..];
            readBuf := readBuf + payload.value;
            o := TakeOut(cap);
            return;
          }
        }
        if incoming == [] {
          return Pending;
        }
        var e := incoming[0];
        incoming := incoming[1..];
        match e
        case NotReady => return Pending;
        case Broken => return Failed;
        case Eof => return Ready([]);
        case Arrived(bytes) =>
          if bytes == [] {
            return Ready([]);
          }
          rawBuf := rawBuf + bytes;
      }
    }

    method TakeOut(cap: nat) returns (o: Outcome)
      modifies this`readBuf
      ensures (View(), o) == Deliver(old(View()), cap)
    {
      var n := Min(cap, |readBuf|);
      o := Ready(readBuf[..n]);
      readBuf := readBuf[n..];
    }

    /** The frames are handed to the underlying stream in one piece, the salt first, once.  Whatever part of them
        that stream takes, all of `data` counts as written. */
    method PollWrite(data: Data, answer: Answer) returns (r: WriteResult, taken: Data)
      modifies this`saltSent, this`enc
      ensures saltSent && enc == CounterAfter(old(enc), |Chunks(data)|)
      ensures var out := (if old(saltSent) then [] else salt) + Frames(k, old(enc), Chunks(data));
        taken == (if answer.Took? then Front(out, answer.n) else [])
      ensures r == match answer case Took(_) => Wrote(|data|) case Busy => WouldBlock case Down => WriteError
    {
      var out := SealAll(data);
      match answer
      case Took(n) => r, taken := Wrote(|data|), Front(out, n);
      case Busy => r, taken := WouldBlock, [];
      case Down => r, taken := WriteError, [];
    }

    method SealAll(data: Data) returns (out: Data)
      modifies this`saltSent, this`enc
      ensures saltSent && enc == CounterAfter(old(enc), |Chunks(data)|)
      ensures out == (if old(saltSent) then [] else salt) + Frames(k, old(enc), Chunks(data))
    {
      out := if saltSent then [] else salt;
      saltSent := true;
      var frames := SealChunks(data);
      out := out + frames;
    }

    /** Cuts the data into chunks and seals one after the other. */
    method SealChunks(data: Data) returns (out: Data)
      modifies this`enc
      ensures enc == CounterAfter(old(enc), |Chunks(data)|) && out == Frames(k, old(enc), Chunks(data))
    {
      out := [];
      ghost var done := [];
      var offset := 0;
      assert data[0..] == data && done + Chunks(data) == Chunks(data);
      while offset < |data|
        invariant 0 <= offset <= |data|
        invariant out == Frames(k, old(enc), done) && enc == CounterAfter(old(enc), |done|)
        invariant done + Chunks(data[offset..]) == Chunks(data)
      {
        var end := Min(offset + MAX_PAYLOAD, |data|);
        NextChunk(data, offset, end);
        OneMoreFrame(k, old(enc), done, data[offset..end]);
        MoveOver(done, data[offset..end], Chunks(data[end..]));
        var frame := SealChunk(data[offset..end]);
        out := out + frame;
        done := done + [data[offset..end]];
        offset := end;
      }
      assert data[offset..] == [] && done + [] == done;
    }

    /** Seals the length, then the payload. */
    method SealChunk(chunk: Data) returns (frame: Data)
      modifies this`enc
      ensures frame == Frame(k, old(enc), chunk) && enc == Bump(Bump(old(enc)))
    {
      var lenBuf := k.seal(enc, PutU16(|chunk|));
      enc := Bump(enc);
      var payloadBuf := k.seal(enc, chunk);
      enc := Bump(enc);
      frame := lenBuf + payloadBuf;
    }
  }

  /** The ciphertext of a sequence of writes. */
  function Wire(k: Aead, counter: nat, writes: seq<Data>): Data
    decreases |writes|
  {
    if writes == [] then [] else
      var cs := Chunks(writes[0]);
      Frames(k, counter, cs) + Wire(k, CounterAfter(counter, |cs|), writes[1..])
  }

  function AllChunks(writes: seq<Data>): (cs: seq<Data>)
    ensures forall i :: 0 <= i < |cs| ==> 1 <= |cs[i]| <= MAX_PAYLOAD
  {
    if writes == [] then [] else Chunks(writes[0]) + AllChunks(writes[1..])
  }

  lemma {:induction false} FramesAppend(k: Aead, counter: nat, a: seq<Data>, b: seq<Data>)
    ensures Frames(k, counter, a + b) == Frames(k, counter, a) + Frames(k, CounterAfter(counter, |a|), b)
    decreases |a|
  {
    if a == [] {
      assert a + b == b;
    } else {
      assert (a + b)[1..] == a[1..] + b;
      FramesAppend(k, Bump(Bump(counter)), a[1..], b);
    }
  }

  lemma {:induction false} WireIsFrames(k: Aead, counter: nat, writes: seq<Data>)
    ensures Wire(k, counter, writes) == Frames(k, counter, AllChunks(writes))
    ensures Concat(AllChunks(writes)) == Concat(writes)
    decreases |writes|
  {
    if writes != [] {
      var cs := Chunks(writes[0]);
      WireIsFrames(k, CounterAfter(counter, |cs|), writes[1..]);
      FramesAppend(k, counter, cs, AllChunks(writes[1..]));
      ConcatAppend(cs, AllChunks(writes[1..]));
    }
  }

  /** Everything after the salt is one sequence of frames: the first payload's and those of the writes. */
  lemma {:induction false} StreamIsFrames(k: Aead, first: Data, writes: seq<Data>)
    ensures Frame(k, 0, first) + Wire(k, CounterAfter(0, 1), writes) == Frames(k, 0, [first] + AllChunks(writes))
    ensures Concat([first] + AllChunks(writes)) == first + Concat(writes)
  {
    WireIsFrames(k, CounterAfter(0, 1), writes);
    FramesAppend(k, 0, [first], AllChunks(writes));
    ConcatAppend([first], AllChunks(writes));
    assert Frames(k, 0, [first]) == Frame(k, 0, first) + Frames(k, Bump(Bump(0)), []);
  }

  lemma {:induction false} AfterSalt(k: Aead, salt: Data, first: Data, writes: seq<Data>, c: Data)
    requires salt + c == Preamble(k, salt, first) + Wire(k, CounterAfter(0, 1), writes)
    ensures c == Frame(k, 0, first) + Wire(k, CounterAfter(0, 1), writes)
  {
    Reassociate(salt, Frame(k, 0, first), Wire(k, CounterAfter(0, 1), writes));
    assert c == (salt + c)[|salt|..];
  }

  lemma {:induction false} SentIsFrames(k: Aead, salt: Data, first: Data, writes: seq<Data>, c: Data)
    requires Sound(k) && |first| < 0x1_0000
    requires salt + c == Preamble(k, salt, first) + Wire(k, CounterAfter(0, 1), writes)
    ensures Parse(k, 0, c) == Parsed(first + Concat(writes), |c|, 1 + |AllChunks(writes)|)
    ensures first != [] ==> Solid(k, 0, c)
  {
    AfterSalt(k, salt, first, writes, c);
    StreamIsFrames(k, first, writes);
    ParseUndoesFrames(k, 0, [first] + AllChunks(writes));
    if first != [] {
      FramesAreSolid(k, 0, [first] + AllChunks(writes));
    }
  }

  /** What arrives, in whatever pieces and through whatever buffers, is what was sent, the first payload
      followed by all the data written: no poll fails unless the stream underneath does, what has come out is
      always a prefix, and enough polls with any room at all bring out everything, at two nonces a frame.  Unless
      the first payload is empty, no read looks like the end of the stream before that stream has ended. */
  lemma {:induction false} ReaderGetsWhatWasWritten(
      k: Aead, salt: Data, first: Data, writes: seq<Data>, incoming: seq<Event>, caps: seq<nat>)
    requires Sound(k) && |first| < 0x1_0000 && Broken !in incoming
    requires salt + Arrivals(incoming) == Preamble(k, salt, first) + Wire(k, CounterAfter(0, 1), writes)
    ensures var reader := Reader(0, [], [], incoming);
      var run, sent := Polls(k, reader, caps), first + Concat(writes);
      && !run.last.Failed? && run.delivered <= sent
      && ((forall i :: 0 <= i < |caps| ==> caps[i] >= 1) && |caps| > |incoming| + |sent| + 1 + |AllChunks(writes)| ==>
            run.delivered == sent && run.reader.counter == CounterAfter(0, 1 + |AllChunks(writes)|))
      && ((forall i :: 0 <= i < |caps| ==> caps[i] >= 1) && caps != [] && first != [] && Endless(incoming) ==>
            run.last.Ready? ==> run.last.out != [])
  {
    var reader := Reader(0, [], [], incoming);
    SentIsFrames(k, salt, first, writes, Arrivals(incoming));
    assert [] + Arrivals(incoming) == Arrivals(incoming);
    PollsStayClean(k, reader, caps);
    PollsDeliverThePlaintext(k, reader, caps);
    if (forall i :: 0 <= i < |caps| ==> caps[i] >= 1) && |caps| > Left(k, reader) {
      EnoughPollsDeliverAll(k, reader, caps);
    }
    if (forall i :: 0 <= i < |caps| ==> caps[i] >= 1) && caps != [] && first != [] && Endless(incoming) {
      NoReadIsEmpty(k, reader, caps);
    }
  }
}
