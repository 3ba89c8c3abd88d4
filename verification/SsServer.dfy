/** The Shadowsocks server's decryptor, which reads one sealed chunk after the other. */
module SsServer {
  import opened Bytes
  import opened SsStream

  datatype ServerStep = Chunk(payload: Data, rest: Data) | Refused | Short

  /** `read_chunk` on the bytes the stream will still deliver: lengths outside 1..0x3FFF are refused. */
  function ServerRead(k: Aead, nonce: nat, c: Data): (s: ServerStep)
    requires Sound(k)
    ensures s.Chunk? ==> |s.rest| < |c|
  {
    if |c| < LEN_CHUNK then Short else
      var len := k.open(nonce, c[..LEN_CHUNK]);
      if len.None? then Refused else
        var n := U16(len.value[0], len.value[1]);
        if n == 0 || n > MAX_PAYLOAD then Refused
        else if |c| < LEN_CHUNK + n + TAG_LEN then Short else
          var payload := k.open(Bump(nonce), c[LEN_CHUNK..LEN_CHUNK + n + TAG_LEN]);
          if payload.None? then Refused else Chunk(payload.value, c[LEN_CHUNK + n + TAG_LEN..])
  }

  class AeadDecryptor {
    const k: Aead
    var nonce: nat

    constructor (k: Aead)
      ensures this.k == k && nonce == 0
    {
      this.k, nonce := k, 0;
    }

    /** A chunk costs two nonces; a stream that ends inside the length costs none. */
    method ReadChunk(stream: Data) returns (s: ServerStep)
      requires Sound(k)
      modifies this
      ensures s == ServerRead(k, old(nonce), stream)
      ensures s.Chunk? ==> nonce == Bump(Bump(old(nonce)))
      ensures |stream| < LEN_CHUNK ==> nonce == old(nonce)
    {
      if |stream| < LEN_CHUNK {
        return Short;
      }
      var lenBuf := k.open(nonce, stream[..LEN_CHUNK]);
      nonce := Bump(nonce);
      if lenBuf.None? {
        return Refused;
      }
      var n := U16(lenBuf.value[0], lenBuf.value[1]);
      if !(n > 0 && n <= MAX_PAYLOAD) {
        return Refused;
      }
      var rest := stream[LEN_CHUNK..];
      if |rest| < n + TAG_LEN {
        return Short;
      }
      var payload := k.open(nonce, rest[..n + TAG_LEN]);
      assert rest[..n + TAG_LEN] == stream[LEN_CHUNK..LEN_CHUNK + n + TAG_LEN];
      assert rest[n + TAG_LEN..] == stream[LEN_CHUNK + n + TAG_LEN..];
      nonce := Bump(nonce);
      if payload.None? {
        return Refused;
      }
      s := Chunk(payload.value, rest[n + TAG_LEN..]);
    }
  }

  /** The chunks the server reads before it refuses or runs short, and whether it used up the stream. */
  function ServerReads(k: Aead, nonce: nat, c: Data): (seq<Data>, bool)
    requires Sound(k)
    decreases |c|
  {
    if c == [] then ([], true) else
      var s := ServerRead(k, nonce, c);
      if !s.Chunk? then ([], false) else
        var (cs, clean) := ServerReads(k, Bump(Bump(nonce)), s.rest);
        ([s.payload] + cs, clean)
  }

  lemma ServerReadsOneFrame(k: Aead, nonce: nat, payload: Data, rest: Data)
    requires Sound(k) && 1 <= |payload| <= MAX_PAYLOAD
    ensures ServerRead(k, nonce, Frame(k, nonce, payload) + rest) == Chunk(payload, rest)
  {
    var len, body := k.seal(nonce, PutU16(|payload|)), k.seal(Bump(nonce), payload);
    var c := (len + body) + rest;
    assert c[..LEN_CHUNK] == len && c[LEN_CHUNK..LEN_CHUNK + |payload| + TAG_LEN] == body;
    assert c[LEN_CHUNK + |payload| + TAG_LEN..] == rest;
  }

  lemma {:induction false} ServerUndoesFrames(k: Aead, nonce: nat, chunks: seq<Data>)
    requires Sound(k) && forall i :: 0 <= i < |chunks| ==> 1 <= |chunks[i]| <= MAX_PAYLOAD
    ensures ServerReads(k, nonce, Frames(k, nonce, chunks)) == (chunks, true)
    decreases |chunks|
  {
    if chunks != [] {
      HeadOfFrame(k, nonce, chunks[0], []);
      ServerReadsOneFrame(k, nonce, chunks[0], Frames(k, Bump(Bump(nonce)), chunks[1..]));
      ServerUndoesFrames(k, Bump(Bump(nonce)), chunks[1..]);
      assert [chunks[0]] + chunks[1..] == chunks;
    }
  }

  /** A length the server does not accept ends the reading. */
  lemma {:induction false} ServerRefusesFrame(k: Aead, nonce: nat, payload: Data, rest: Data)
    requires Sound(k) && |payload| < 0x1_0000 && !(1 <= |payload| <= MAX_PAYLOAD)
    ensures ServerReads(k, nonce, Frame(k, nonce, payload) + rest) == ([], false)
  {
    var len := k.seal(nonce, PutU16(|payload|));
    PutU16Exact(|payload|);
    assert (Frame(k, nonce, payload) + rest)[..LEN_CHUNK] == len;
  }

  /** The server never refuses a frame of the writes.  It reads exactly the first payload and then the chunks of
      the writes, to the last byte, if and only if that payload has 1..0x3FFF bytes; otherwise it reads nothing. */
  lemma {:induction false} ServerGetsWhatWasWritten(k: Aead, salt: Data, first: Data, writes: seq<Data>, c: Data)
    requires Sound(k) && |first| < 0x1_0000
    requires salt + c == Preamble(k, salt, first) + Wire(k, CounterAfter(0, 1), writes)
    ensures 1 <= |first| <= 0x3FFF ==> ServerReads(k, 0, c) == ([first] + AllChunks(writes), true)
    ensures !(1 <= |first| <= 0x3FFF) ==> ServerReads(k, 0, c) == ([], false)
    ensures Concat([first] + AllChunks(writes)) == first + Concat(writes)
  {
    AfterSalt(k, salt, first, writes, c);
    StreamIsFrames(k, first, writes);
    if 1 <= |first| <= MAX_PAYLOAD {
      ServerUndoesFrames(k, 0, [first] + AllChunks(writes));
    } else {
      ServerRefusesFrame(k, 0, first, Wire(k, CounterAfter(0, 1), writes));
    }
  }
}
