/** The reader with its buffer: what redisReaderGetReply discards when a kilobyte has been read, with
    the ints of sdsrange, and how far cutting a stream into feeds makes no difference. */
module RespBuffer {
  import opened U32
  import opened Options
  import opened Resp
  import opened Seqs

  // ---- sdsrange ----

  /** An index counted from the end when negative. */
  function Clamp(i: int, len: nat): (r: int)
    ensures r >= 0
  {
    if i < 0 then Max(0, Signed(len + i)) else i
  }

  function Between(s: Bytes, start: nat, end: nat): Bytes
  {
    var len := Signed(|s|);
    if start > end || start >= len then [] else s[start..Min(end, len - 1) + 1]
  }

  /** sdsrange: the indices are ints, and so is the length they are compared with. */
  function Range(s: Bytes, start: int, end: int): Bytes
  {
    if s == [] then s else Between(s, Clamp(start, |s|), Clamp(end, |s|))
  }

  /** The buffer and the cursor after redisReaderGetReply has discarded what was read. */
  function Trimmed(buf: Bytes, pos: nat): (r: (Bytes, nat))
    requires pos <= |buf|
    ensures r.1 <= |r.0| && |r.0| - r.1 <= |buf| - pos
  {
    if pos < 1024 then (buf, pos)
    else
      RangeShrinks(buf, pos);
      (Range(buf, Signed(pos), -1), 0)
  }

  lemma RangeShrinks(buf: Bytes, pos: nat)
    requires pos <= |buf|
    ensures |Range(buf, Signed(pos), -1)| <= |buf| - pos
  {
    var len := Signed(|buf|);
    if buf != [] && len > 0 {
      var k, j := |buf| / M, pos / M;
      assert |buf| == k * M + len && pos == j * M + pos % M;
      if Signed(pos) < 0 {
        assert k >= j + 1;
      }
    }
  }

  /** The unread bytes are still the unread bytes. */
  ghost predicate Keeps(buf: Bytes, pos: nat)
    requires pos <= |buf|
  {
    var (b, p) := Trimmed(buf, pos);
    b[p..] == buf[pos..]
  }

  lemma TrimKeeps(buf: Bytes, pos: nat)
    requires pos <= |buf| && (pos < 1024 || pos == |buf| || |buf| <= INT_MAX)
    ensures Keeps(buf, pos)
  {
    if 1024 <= pos == |buf| {
      RangeShrinks(buf, pos);
    }
  }

  /** Discarding keeps the unread bytes, whatever they are, if and only if less than a kilobyte was
      read, or nothing is unread, or the buffer's length fits an int. */
  lemma TrimExact(pos: nat, len: nat)
    requires pos <= len
    ensures (forall buf: Bytes :: |buf| == len ==> Keeps(buf, pos)) <==> pos < 1024 || pos == len || len <= INT_MAX
  {
    if pos < 1024 || pos == len || len <= INT_MAX {
      forall buf: Bytes | |buf| == len
        ensures Keeps(buf, pos)
      {
        TrimKeeps(buf, pos);
      }
    } else {
      var buf := LastIsOne(len);
      LastIsLost(buf, pos);
    }
  }

  lemma LastIsOne(len: nat) returns (buf: Bytes)
    requires len > 0
    ensures |buf| == len && buf[len - 1] == 1 && forall i :: 0 <= i < len - 1 ==> buf[i] == 0
  {
    buf := seq(len - 1, _ => 0) + [1];
  }

  lemma LastIsLost(buf: Bytes, pos: nat)
    requires 1024 <= pos < |buf| && |buf| > INT_MAX && buf[|buf| - 1] == 1
    requires forall i :: 0 <= i < |buf| - 1 ==> buf[i] == 0
    ensures !Keeps(buf, pos)
  {
    assert Signed(|buf|) <= |buf| - M;
    var unread := buf[pos..];
    assert unread[|unread| - 1] == 1;
    forall i | 0 <= i < |Trimmed(buf, pos).0|
      ensures Trimmed(buf, pos).0[i] == 0
    {
    }
  }

  // ---- the reader ----

  /** A reader between calls: the stack, the buffer and the cursor, or the error it failed with. */
  datatype Held = Held(stack: Stack, buf: Bytes, pos: nat) | Broken(problem: Problem)

  ghost predicate HeldOk(h: Held) { h.Held? ==> StackOk(h.stack) && h.pos <= |h.buf| }

  const NEW_READER: Held := Held([ROOT], [], 0)

  /** What it is to its caller: the stack and the unread bytes. */
  function View(h: Held): Reader
    requires HeldOk(h)
  {
    match h
    case Held(stack, buf, pos) => Waiting(stack, buf[pos..])
    case Broken(e) => Failed(e)
  }

  function Left(h: Held): nat
    requires HeldOk(h)
  {
    if h.Held? then |h.buf| - h.pos else 0
  }

  function Settled(stack: Stack, buf: Bytes, pos: nat): (h: Held)
    requires StackOk(stack) && pos <= |buf|
    ensures HeldOk(h) && Left(h) <= |buf| - pos
  {
    var (b, p) := Trimmed(buf, pos);
    Held(stack, b, p)
  }

  /** What items left of a buffer. */
  ghost predicate LeftOf(g: Got, buf: Bytes)
  {
    match g
    case Bad(_) => true
    case Pending(s, rest) => StackOk(s) && |rest| <= |buf|
    case Got(_, rest) => |rest| <= |buf|
  }

  /** The end of redisReaderGetReply: what was read is discarded and the reply emitted, if there is one. */
  function Closed(g: Got, buf: Bytes): (r: (Option<Reply>, Held))
    requires LeftOf(g, buf)
    ensures HeldOk(r.1) && (g.Got? ==> Left(r.1) <= |g.rest|)
  {
    match g
    case Bad(e) => (None, Broken(e))
    case Pending(s, rest) => (None, Settled(s, buf, |buf| - |rest|))
    case Got(v, rest) => (Some(v), Settled([ROOT], buf, |buf| - |rest|))
  }

  /** redisReaderGetReply */
  function Next(h: Held): (r: (Option<Reply>, Held))
    requires HeldOk(h)
    ensures HeldOk(r.1) && (r.0.Some? ==> Left(r.1) < Left(h))
  {
    if h.Broken? || h.buf == [] then (None, h)
    else
      GetOneEnds(h.stack, h.buf[h.pos..], C32);
      Closed(GetOne(h.stack, h.buf[h.pos..], C32), h.buf)
  }

  lemma NextIs(h: Held)
    requires HeldOk(h) && h.Held? && h.buf != []
    ensures var g := GetOne(h.stack, h.buf[h.pos..], C32); LeftOf(g, h.buf) && Next(h) == Closed(g, h.buf)
  {
    GetOneEnds(h.stack, h.buf[h.pos..], C32);
  }

  /** redisReaderGetReply until there is no reply. */
  function Drain(h: Held): (r: (seq<Reply>, Held))
    requires HeldOk(h)
    ensures HeldOk(r.1)
    decreases Left(h)
  {
    var (reply, h1) := Next(h);
    if reply.None? then ([], h1)
    else
      var (more, end) := Drain(h1);
      ([reply.value] + more, end)
  }

  /** redisReaderFeed */
  function Appended(h: Held, bytes: Bytes): (r: Held)
    requires HeldOk(h)
    ensures HeldOk(r)
  {
    if h.Broken? then h else h.(buf := h.buf + bytes)
  }

  function FeedOnce(h: Held, bytes: Bytes): (r: (seq<Reply>, Held))
    requires HeldOk(h)
    ensures HeldOk(r.1)
  {
    Drain(Appended(h, bytes))
  }

  /** Feeding piece after piece, draining after each. */
  function FeedPieces(h: Held, chunks: seq<Bytes>): (r: (seq<Reply>, Held))
    requires HeldOk(h)
    ensures HeldOk(r.1)
    decreases |chunks|
  {
    if chunks == [] then Drain(h)
    else
      var (out, h1) := FeedOnce(h, chunks[0]);
      var (more, end) := FeedPieces(h1, chunks[1..]);
      (out + more, end)
  }

  // ---- within an int ----

  ghost predicate Short(h: Held) { h.Held? ==> |h.buf| <= INT_MAX }

  /** No piece makes the buffer longer than the largest int. */
  ghost predicate Fits(h: Held, chunks: seq<Bytes>)
    requires HeldOk(h)
    decreases |chunks|
  {
    if chunks == [] then Short(h)
    else Short(Appended(h, chunks[0])) && Fits(FeedOnce(h, chunks[0]).1, chunks[1..])
  }

  lemma SettledView(stack: Stack, buf: Bytes, rest: Bytes, pos: nat)
    requires StackOk(stack) && pos <= |buf| && Ends(rest, buf[pos..])
    requires |buf| <= INT_MAX || rest == [] || |buf| - |rest| < 1024
    ensures View(Settled(stack, buf, |buf| - |rest|)) == Waiting(stack, rest)
    ensures |Settled(stack, buf, |buf| - |rest|).buf| <= |buf|
  {
    TrimKeeps(buf, |buf| - |rest|);
    assert buf[|buf| - |rest|..] == rest;
  }

  lemma ClosedView(g: Got, h: Held)
    requires HeldOk(h) && h.Held? && Short(h) && LeftOf(g, h.buf)
    requires g.Pending? ==> Ends(g.rest, h.buf[h.pos..])
    requires g.Got? ==> Ends(g.rest, h.buf[h.pos..])
    ensures var h1 := Closed(g, h.buf).1;
            && Short(h1)
            && View(h1) == (match g
                            case Bad(e) => Failed(e)
                            case Pending(s, rest) => Waiting(s, rest)
                            case Got(v, rest) => Waiting([ROOT], rest))
  {
    match g
    case Bad(e) =>
    case Pending(s, rest) => SettledView(s, h.buf, rest, h.pos);
    case Got(v, rest) => SettledView([ROOT], h.buf, rest, h.pos);
  }

  /** Draining a reader whose buffer fits an int does what the machine over unbounded integers does. */
  lemma {:induction false} DrainIs(h: Held)
    requires HeldOk(h) && h.Held? && Short(h)
    ensures var (out, end) := Drain(h); (out, View(end)) == Parse(h.stack, h.buf[h.pos..]) && Short(end)
    decreases Left(h)
  {
    var stack, unread := h.stack, h.buf[h.pos..];
    ParseGets(stack, unread);
    if h.buf == [] {
      NothingToRead(stack, Unbounded);
    } else {
      GetOneAgrees(stack, unread);
      GetOneEnds(stack, unread, C32);
      NextIs(h);
      ClosedView(GetOne(stack, unread), h);
      if GetOne(stack, unread).Got? {
        DrainIs(Next(h).1);
      }
    }
  }

  lemma FeedIs(h: Held, bytes: Bytes)
    requires HeldOk(h) && Short(Appended(h, bytes))
    ensures var (out, end) := FeedOnce(h, bytes);
            ReaderOk(View(h)) && (out, View(end)) == Feed(View(h), bytes) && Short(end)
  {
    if h.Held? {
      DrainIs(Appended(h, bytes));
      assert (h.buf + bytes)[h.pos..] == h.buf[h.pos..] + bytes;
    }
  }

  /** A stream of any length in pieces that fit comes to what the machine over unbounded integers makes
      of it in one piece. */
  lemma {:induction false} PiecesJoin(h: Held, chunks: seq<Bytes>)
    requires HeldOk(h) && Fits(h, chunks)
    ensures var (out, end) := FeedPieces(h, chunks);
            ReaderOk(View(h)) && (out, View(end)) == Feed(View(h), Concat(chunks))
    decreases |chunks|
  {
    if chunks == [] {
      assert Appended(h, []) == h by {
        if h.Held? { assert h.buf + [] == h.buf; }
      }
      FeedIs(h, []);
    } else {
      FeedIs(h, chunks[0]);
      PiecesJoin(FeedOnce(h, chunks[0]).1, chunks[1..]);
      ChunksJoin(View(h), chunks);
      ChunksJoin(View(FeedOnce(h, chunks[0]).1), chunks[1..]);
    }
  }

  /** The reader is chunk-independent: two ways of cutting one stream, of any length, into pieces that
      fit give the same replies in all and leave the reader the same to its caller. */
  lemma {:induction false} ChunksDoNotMatter(h: Held, x: seq<Bytes>, y: seq<Bytes>)
    requires HeldOk(h) && Concat(x) == Concat(y) && Fits(h, x) && Fits(h, y)
    ensures FeedPieces(h, x).0 == FeedPieces(h, y).0 && View(FeedPieces(h, x).1) == View(FeedPieces(h, y).1)
  {
    PiecesJoin(h, x);
    PiecesJoin(h, y);
  }

  /** Pieces that are no longer in all than the largest int always fit. */
  lemma {:induction false} ShortStreamFits(h: Held, chunks: seq<Bytes>)
    requires HeldOk(h) && (h.Held? ==> |h.buf| + |Concat(chunks)| <= INT_MAX)
    ensures Fits(h, chunks)
    decreases |chunks|
  {
    if chunks != [] {
      var h1 := FeedOnce(h, chunks[0]).1;
      DrainShorter(Appended(h, chunks[0]));
      ShortStreamFits(h1, chunks[1..]);
    }
  }

  /** Draining never makes the buffer longer. */
  lemma {:induction false} DrainShorter(h: Held)
    requires HeldOk(h)
    ensures var end := Drain(h).1; end.Held? ==> h.Held? && |end.buf| <= |h.buf|
    decreases Left(h)
  {
    NextShorter(h);
    if Next(h).0.Some? {
      DrainShorter(Next(h).1);
    }
  }

  lemma NextShorter(h: Held)
    requires HeldOk(h)
    ensures var h1 := Next(h).1; h1.Held? ==> h.Held? && |h1.buf| <= |h.buf|
  {
    if h.Held? {
      GetOneEnds(h.stack, h.buf[h.pos..], C32);
    }
  }
}
