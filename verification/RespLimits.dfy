/** How far the reader's ints reach: which streams come out of it as the protocol means them, and the
    first that do not. */
module RespLimits {
  import opened U32
  import opened Options
  import opened Decimal
  import opened Resp
  import opened RespBuffer
  import opened RespRoundTrip
  import opened Seqs

  // ---- round trips in pieces ----

  /** A stream of replies of at most eight nested arrays each, of any length in all, fed in pieces that
      fit: it is read back reply for reply, and the reader is as new. */
  lemma {:induction false} StreamRoundTrip(ts: seq<Reply>, chunks: seq<Bytes>)
    requires forall i :: 0 <= i < |ts| ==> Sendable(ts[i]) && Depth(ts[i]) <= 8
    requires Concat(chunks) == EncodeAll(ts) && Fits(NEW_READER, chunks)
    ensures FeedPieces(NEW_READER, chunks).0 == ts && View(FeedPieces(NEW_READER, chunks).1) == NEW
  {
    PiecesJoin(NEW_READER, chunks);
    StreamRead(ts, []);
    assert EncodeAll(ts) + [] == [] + EncodeAll(ts);
    assert Parse([ROOT], []) == ([], NEW);
    assert ts + [] == ts;
  }

  /** What the machine over unbounded integers makes of one encoded reply. */
  lemma {:induction false} OneReply(t: Reply)
    requires Sendable(t)
    ensures Parse([ROOT], Encode(t)) == if Depth(t) <= 8 then ([t], NEW) else ([], Failed(TooDeep))
  {
    ReadTree(t, [ROOT], []);
    assert Encode(t) + [] == Encode(t);
    assert Finish([ROOT], t) == ([], [t]);
    assert Parse([ROOT], []) == ([], NEW);
    assert [t] + [] == [t];
  }

  /** One reply in pieces that fit: it comes out if and only if its arrays nest at most eight deep;
      otherwise the reader fails. */
  lemma {:induction false} ReplyRoundTrip(t: Reply, chunks: seq<Bytes>)
    requires Sendable(t) && Concat(chunks) == Encode(t) && Fits(NEW_READER, chunks)
    ensures var (out, end) := FeedPieces(NEW_READER, chunks);
            (out, View(end)) == if Depth(t) <= 8 then ([t], NEW) else ([], Failed(TooDeep))
  {
    PiecesJoin(NEW_READER, chunks);
    OneReply(t);
    assert [] + Encode(t) == Encode(t);
  }

  /** Nested(n) is n arrays, one inside the other. */
  function Nested(n: nat): (t: Reply)
    ensures Sendable(t) && Depth(t) == n
  {
    if n == 0 then Nil
    else
      var inner := Nested(n - 1);
      assert [inner][1..] == [] && DepthAll([inner]) == Max(Depth(inner), DepthAll([]));
      Arr([inner])
  }

  lemma {:induction false} NestedBytes(n: nat)
    ensures |Encode(Nested(n))| == 4 * n + 5
  {
    if n == 0 {
      assert Print(-1) == [45] + Digits(1) && |Digits(1)| == 1;
    } else {
      NestedBytes(n - 1);
      var inner := Nested(n - 1);
      assert EncodeAll([inner]) == Encode(inner) + EncodeAll([]);
      assert Encode(Arr([inner])) == [42] + Digits(1) + CRLF + EncodeAll([inner]) && |Digits(1)| == 1;
    }
  }

  lemma {:induction false} ShortReply(t: Reply)
    requires Sendable(t) && |Encode(t)| <= INT_MAX && Depth(t) > 8
    ensures FeedOnce(NEW_READER, Encode(t)) == ([], Broken(TooDeep))
  {
    assert [] + Encode(t) == Encode(t);
    FeedIs(NEW_READER, Encode(t));
    OneReply(t);
  }

  /** Concretely: nine arrays, one inside the other, 41 bytes in all. */
  lemma NineDeep()
    ensures |Encode(Nested(9))| == 41 && FeedOnce(NEW_READER, Encode(Nested(9))) == ([], Broken(TooDeep))
  {
    NestedBytes(9);
    ShortReply(Nested(9));
  }

  // ---- a whole reply at once ----

  /** These bytes, fed to a new reader at once, are one reply. */
  ghost predicate Comes(t: Reply, s: Bytes)
  {
    FeedOnce(NEW_READER, s).0 == [t] && View(FeedOnce(NEW_READER, s).1) == NEW
  }

  lemma {:induction false} WholeReply(t: Reply, s: Bytes)
    requires s != [] && GetOne([ROOT], s, C32) == Got(t, [])
    ensures Comes(t, s)
  {
    var h := NewWith(s);
    NextIs(h);
    WholeSettled(s);
    LastOne(h, t, Next(h).1);
  }

  lemma {:induction false} LastOne(h: Held, v: Reply, h1: Held)
    requires HeldOk(h) && HeldOk(h1) && Next(h) == (Some(v), h1) && View(h1) == NEW
    ensures Drain(h).0 == [v] && View(Drain(h).1) == NEW
  {
    NothingLeft(h1);
    assert [v] + [] == [v];
  }

  lemma NewWith(s: Bytes) returns (h: Held)
    ensures h == Appended(NEW_READER, s) && h == Held([ROOT], s, 0) && h.buf[h.pos..] == s
  {
    h := Appended(NEW_READER, s);
    assert [] + s == s && s[0..] == s;
  }

  lemma WholeSettled(s: Bytes)
    ensures View(Settled([ROOT], s, |s|)) == NEW
  {
    TrimKeeps(s, |s|);
    assert s[|s|..] == [];
  }

  lemma {:induction false} NothingLeft(h: Held)
    requires HeldOk(h) && View(h) == NEW
    ensures Drain(h).0 == [] && View(Drain(h).1) == NEW
  {
    NothingToRead([ROOT], C32);
    if h.buf != [] {
      assert h.buf[h.pos..] == [];
      SettledView([ROOT], h.buf, [], h.pos);
    }
  }

  /** Once something of a reply was read, the bottom of the stack has its type. */
  lemma {:induction false} FinishBegun(stack: Stack, v: Reply)
    requires 1 <= |stack| && forall i :: 0 <= i < |stack| - 1 ==> Open(stack[i], stack[i + 1].idx)
    ensures var s := Finish(stack, v).0; s != [] ==> s[0].kind.Some?
    decreases |stack|
  {
    var n := |stack| - 1;
    if n > 0 {
      assert Open(stack[0], stack[1].idx);
      if stack[n].idx == stack[n - 1].elements - 1 {
        FinishBegun(stack[..n], Arr(stack[n - 1].items + [v]));
      }
    }
  }

  lemma BottomTyped(stack: Stack)
    requires Shaped(stack) && Top(stack).kind.Some?
    ensures stack[0].kind.Some?
  {
    if |stack| > 1 { assert Open(stack[0], stack[1].idx); }
  }

  ghost predicate Begun(o: Outcome)
  {
    match o
    case Stuck(s, _) => s != [] && s[0].kind.Some?
    case Done(s, _, _) => s != [] ==> s[0].kind.Some?
    case Fail(_) => true
  }

  lemma TypedBegun(stack: Stack, rest: Bytes)
    requires Shaped(stack) && Top(stack).kind.Some?
    ensures Begun(Typed(stack, rest))
  {
    BottomTyped(stack);
    var n := FindCrlf(rest);
    match Top(stack).kind.value
    case KString =>
      FinishBegun(stack, Nil);
      if n >= 0 && ParseLL(rest[..n]).Some? {
        var len := ParseLL(rest[..n]).value;
        if 0 <= len && n + 2 + len + 2 <= |rest| { FinishBegun(stack, Str(rest[n + 2..n + 2 + len])); }
      }
    case KArray =>
      FinishBegun(stack, Nil);
      FinishBegun(stack, Arr([]));
    case _ =>
      if n >= 0 {
        FinishBegun(stack, Error(rest[..n]));
        FinishBegun(stack, Status(rest[..n]));
        if ParseLL(rest[..n]).Some? { FinishBegun(stack, Int(ParseLL(rest[..n]).value)); }
      }
  }

  lemma StepBegun(stack: Stack, rest: Bytes)
    requires StackOk(stack) && (stack[0].kind.Some? || rest != [])
    ensures Begun(Step(stack, rest))
  {
    if Top(stack).kind.Some? {
      TypedBegun(stack, rest);
    } else if rest != [] && KindOf(rest[0]).Some? {
      TypedBegun(WithKind(stack, KindOf(rest[0]).value), rest[1..]);
    }
  }

  lemma {:induction false} GetOneBegun(stack: Stack, rest: Bytes)
    requires StackOk(stack) && (stack[0].kind.Some? || rest != [])
    ensures var g := GetOne(stack, rest); g.Pending? ==> g.stack != [] && g.stack[0].kind.Some?
    decreases |rest|
  {
    StepOk(stack, rest);
    StepBegun(stack, rest);
    match Step(stack, rest)
    case Fail(_) =>
    case Stuck(_, _) =>
    case Done(s, r, _) => if s != [] { GetOneBegun(s, r); }
  }

  /** Bytes that come to one reply and nothing more are that reply's to the last. */
  lemma {:induction false} LastReply(stack: Stack, s: Bytes, t: Reply)
    requires StackOk(stack) && Parse(stack, s) == ([t], NEW)
    ensures GetOne(stack, s) == Got(t, [])
  {
    ParseGets(stack, s);
    match GetOne(stack, s)
    case Bad(_) =>
    case Pending(_, _) =>
    case Got(v, r) =>
      assert [v] == ([v] + Parse([ROOT], r).0)[..1] == [t];
      assert |Parse([ROOT], r).0| == 0;
      if r != [] {
        ParseGets([ROOT], r);
        GetOneBegun([ROOT], r);
      }
  }

  // ---- one reply, in any pieces ----

  /** These pieces, fed to a new reader, are one reply. */
  ghost predicate ComesIn(t: Reply, chunks: seq<Bytes>)
  {
    FeedPieces(NEW_READER, chunks).0 == [t] && View(FeedPieces(NEW_READER, chunks).1) == NEW
  }

  /** The bytes that complete the reply are in the buffer. */
  lemma {:induction false} LastDrain(h: Held, t: Reply)
    requires HeldOk(h) && h.Held? && Left(h) <= Room(h.stack) && Parse(h.stack, h.buf[h.pos..]) == ([t], NEW)
    ensures Drain(h).0 == [t] && View(Drain(h).1) == NEW && Short(Drain(h).1)
  {
    var unread := h.buf[h.pos..];
    LastReply(h.stack, unread, t);
    GetOneAgrees(h.stack, unread);
    var h1 := Next(h).1;
    if h.buf == [] {
      NothingToRead(h.stack, C32);
    } else {
      SettledView([ROOT], h.buf, [], h.pos);
      assert Next(h) == (Some(t), h1) && View(h1) == NEW;
      EmptyIsShort(h.buf);
      NothingLeft(h1);
      DrainShorter(h1);
      assert [t] + [] == [t];
    }
  }

  lemma EmptyIsShort(buf: Bytes)
    ensures |Trimmed(buf, |buf|).0| < 1024
  {
    if |buf| >= 1024 { TrimKeeps(buf, |buf|); }
  }

  /** After the reply there is nothing but empty pieces. */
  lemma {:induction false} EmptyPieces(h: Held, chunks: seq<Bytes>)
    requires HeldOk(h) && View(h) == NEW && Short(h) && Concat(chunks) == []
    ensures FeedPieces(h, chunks).0 == [] && View(FeedPieces(h, chunks).1) == NEW
  {
    ShortStreamFits(h, chunks);
    PiecesJoin(h, chunks);
    NothingToRead([ROOT], C32);
    assert [] + Concat(chunks) == [];
  }

  /** Whoever is given nothing and is as new had nothing to read. */
  lemma {:induction false} NothingCame(stack: Stack, s: Bytes)
    requires StackOk(stack) && Parse(stack, s) == ([], NEW)
    ensures s == [] && stack == [ROOT]
  {
    ParseGets(stack, s);
    if stack[0].kind.Some? || s != [] {
      GetOneBegun(stack, s);
    } else {
      NothingToRead(stack, Unbounded);
    }
  }

  lemma {:induction false} ReplyInPieces(h: Held, chunks: seq<Bytes>, t: Reply)
    requires HeldOk(h) && h.Held? && Feed(View(h), Concat(chunks)) == ([t], NEW)
    requires |h.buf| + |Concat(chunks)| <= INT_MAX + 1 && Left(h) + |Concat(chunks)| <= Room(h.stack)
    ensures FeedPieces(h, chunks).0 == [t] && View(FeedPieces(h, chunks).1) == NEW
    decreases |chunks|
  {
    if chunks == [] {
      assert h.buf[h.pos..] + [] == h.buf[h.pos..];
      LastDrain(h, t);
    } else {
      var c, others := chunks[0], Concat(chunks[1..]);
      assert Concat(chunks) == c + others;
      if |h.buf| + |c| > INT_MAX {
        assert others == [] && c + others == c;
        assert Appended(h, c).buf[h.pos..] == h.buf[h.pos..] + c;
        LastDrain(Appended(h, c), t);
        LastPiece(h, chunks, t);
      } else {
        ReplyContinues(h, c, others, t);
        if FeedOnce(h, c).0 == [] {
          ReplyInPieces(FeedOnce(h, c).1, chunks[1..], t);
          assert [] + [t] == [t];
        } else {
          LastPiece(h, chunks, t);
        }
      }
    }
  }

  /** The reply came with the first piece. */
  lemma {:induction false} LastPiece(h: Held, chunks: seq<Bytes>, t: Reply)
    requires HeldOk(h) && chunks != [] && Concat(chunks[1..]) == []
    requires FeedOnce(h, chunks[0]).0 == [t]
    requires View(FeedOnce(h, chunks[0]).1) == NEW && Short(FeedOnce(h, chunks[0]).1)
    ensures FeedPieces(h, chunks).0 == [t] && View(FeedPieces(h, chunks).1) == NEW
  {
    EmptyPieces(FeedOnce(h, chunks[0]).1, chunks[1..]);
    assert [t] + [] == [t];
  }

  /** One piece: the reply is still to come, with room for it, or it has come and nothing follows. */
  lemma ReplyContinues(h: Held, c: Bytes, others: Bytes, t: Reply)
    requires HeldOk(h) && h.Held? && Feed(View(h), c + others) == ([t], NEW) && Short(Appended(h, c))
    requires |h.buf| + |c + others| <= INT_MAX + 1 && Left(h) + |c + others| <= Room(h.stack)
    ensures var (out, h1) := FeedOnce(h, c);
            && h1.Held? && Short(h1)
            && (if out == [] then
                  && Feed(View(h1), others) == ([t], NEW)
                  && |h1.buf| + |others| <= INT_MAX + 1 && Left(h1) + |others| <= Room(h1.stack)
                else out == [t] && View(h1) == NEW && others == [])
  {
    var (out, h1) := FeedOnce(h, c);
    var unread := h.buf[h.pos..];
    FeedIs(h, c);
    DrainShorter(Appended(h, c));
    ParseSplit(h.stack, unread + c, others);
    Assoc(unread, c, others);
    ParseRoom(h.stack, unread + c, |others|);
    var more := Feed(View(h1), others).0;
    assert out + more == [t];
    if out == [] {
      assert more == [t];
    } else {
      assert (out + more)[0] == out[0] && |more| == 0;
      NothingCame(h1.stack, h1.buf[h1.pos..] + others);
      assert out == [t];
    }
  }

  lemma {:induction false} ReplyFromPieces(t: Reply, chunks: seq<Bytes>)
    requires Sendable(t) && Depth(t) <= 8 && Concat(chunks) == Encode(t) && |Encode(t)| <= INT_MAX + 1
    ensures ComesIn(t, chunks)
  {
    OneReply(t);
    assert [] + Encode(t) == Encode(t);
    ReplyInPieces(NEW_READER, chunks, t);
  }

  function Zeros(n: nat): (s: Bytes)
    ensures |s| == n && FindCrlf(s) < 0 && forall i :: 0 <= i < n ==> s[i] == 0
  {
    var s := seq(n, _ => 0);
    NoCr(s);
    s
  }

  /** A status line of one byte more: its length and the two bytes behind it run over an int. */
  lemma LongStatus() returns (t: Reply)
    ensures Sendable(t) && Depth(t) == 0 && |Encode(t)| == INT_MAX + 2
    ensures FeedOnce(NEW_READER, Encode(t)) == ([], Broken(Overflow))
  {
    t := Status(Zeros(INT_MAX - 1));
    LongLine(t.text);
    FailsAtOnce(Encode(t), Overflow);
  }

  lemma LineOver(stack: Stack, rest: Bytes)
    requires Shaped(stack) && Top(stack).kind == Some(KStatus) && Seek(rest, C32) + 2 > INT_MAX
    ensures Typed(stack, rest, C32) == Fail(Overflow)
  {
  }

  lemma FailsAtOnce(s: Bytes, e: Problem)
    requires s != [] && Step([ROOT], s, C32) == Fail(e)
    ensures FeedOnce(NEW_READER, s) == ([], Broken(e))
  {
    var h := NewWith(s);
    assert GetOne([ROOT], s, C32) == Bad(e);
    NextIs(h);
  }

  lemma {:induction false} LongLine(text: Bytes)
    requires FindCrlf(text) < 0 && |text| == INT_MAX - 1
    ensures Step([ROOT], Encode(Status(text)), C32) == Fail(Overflow)
  {
    var s := Encode(Status(text));
    assert s[1..] == text + CRLF + [];
    LineEnds(text, []);
    LineOver(WithKind([ROOT], KStatus), s[1..]);
    TypeRead([ROOT], s, KStatus, C32);
  }

  lemma OnePiece(s: Bytes) returns (chunks: seq<Bytes>)
    ensures Concat(chunks) == s
    ensures FeedOnce(NEW_READER, s).1.Broken? ==> FeedPieces(NEW_READER, chunks) == FeedOnce(NEW_READER, s)
  {
    chunks := [s];
    assert s + Concat([]) == s;
    var (out, h1) := FeedOnce(NEW_READER, s);
    assert FeedPieces(h1, chunks[1..]) == Drain(h1);
    if h1.Broken? { assert out + [] == out; }
  }

  /** Every reply that can be sent comes back, in whatever pieces, if and only if it has at most 2^31
      bytes. */
  lemma ReplyLimit(n: nat)
    ensures (forall t, chunks: seq<Bytes> ::
               Sendable(t) && Depth(t) <= 8 && |Encode(t)| <= n && Concat(chunks) == Encode(t) ==> ComesIn(t, chunks))
            <==> n <= INT_MAX + 1
  {
    if n <= INT_MAX + 1 {
      forall t, chunks: seq<Bytes> | Sendable(t) && Depth(t) <= 8 && |Encode(t)| <= n && Concat(chunks) == Encode(t)
        ensures ComesIn(t, chunks)
      {
        ReplyFromPieces(t, chunks);
      }
    } else {
      var t := LongStatus();
      var chunks := OnePiece(Encode(t));
      assert !ComesIn(t, chunks);
    }
  }

  // ---- what a buffer of 2^31 bytes loses ----

  /** One step reads a whole status line. */
  lemma {:induction false} StatusFirst(a: Bytes, rest: Bytes)
    requires FindCrlf(a) < 0 && |Encode(Status(a))| + |rest| <= INT_MAX + 1
    ensures GetOne([ROOT], Encode(Status(a)) + rest, C32) == Got(Status(a), rest)
  {
    var s := Encode(Status(a)) + rest;
    Tail(43, a, rest);
    LineRead(Status(a), WithKind([ROOT], KStatus), rest);
    ItemStep([ROOT], KStatus, Encode(Status(a)), rest);
    assert Finish(WithKind([ROOT], KStatus), Status(a)) == ([], [Status(a)]);
    assert Step([ROOT], s) == Done([], rest, [Status(a)]);
    StepAgrees([ROOT], s);
  }

  lemma AllLost(buf: Bytes, pos: nat)
    requires |buf| == INT_MAX + 1 && 1024 <= pos <= |buf|
    ensures Trimmed(buf, pos) == ([], 0)
  {
  }

  /** A reply and bytes behind it that fill a buffer of 2^31: the reply comes out, the bytes are lost. */
  lemma {:induction false} RestLost(s: Bytes, v: Reply, rest: Bytes)
    requires |s| == INT_MAX + 1 && GetOne([ROOT], s, C32) == Got(v, rest) && |rest| + 1024 <= |s|
    ensures FeedOnce(NEW_READER, s) == ([v], NEW_READER)
  {
    var h := NewWith(s);
    NextIs(h);
    AllLost(s, |s| - |rest|);
    assert Drain(NEW_READER) == ([], NEW_READER);
    assert [v] + [] == [v];
  }

  /** Two status lines, the first of a kilobyte or more, 2^31 bytes in all. */
  ghost predicate TwoLines(a: Bytes, b: Bytes)
  {
    && FindCrlf(a) < 0 && FindCrlf(b) < 0 && |a| >= 1021
    && |Encode(Status(a))| + |Encode(Status(b))| == INT_MAX + 1
  }

  /** Fed at once, the first comes out and the second is lost. */
  lemma SecondLost(a: Bytes, b: Bytes)
    requires TwoLines(a, b)
    ensures FeedOnce(NEW_READER, Encode(Status(a)) + Encode(Status(b))) == ([Status(a)], NEW_READER)
  {
    StatusFirst(a, Encode(Status(b)));
    RestLost(Encode(Status(a)) + Encode(Status(b)), Status(a), Encode(Status(b)));
  }

  /** Fed one after the other, both come out. */
  lemma {:induction false} SecondComes(a: Bytes, b: Bytes, chunks: seq<Bytes>)
    requires TwoLines(a, b) && |chunks| == 2 && chunks[0] == Encode(Status(a)) && chunks[1] == Encode(Status(b))
    ensures FeedPieces(NEW_READER, chunks).0 == [Status(a), Status(b)]
    ensures Concat(chunks) == Encode(Status(a)) + Encode(Status(b))
  {
    TwoJoined(chunks);
    FirstEmpties(a);
    TwoFit(chunks);
    TwoReplies(Status(a), Status(b), chunks);
  }

  lemma {:induction false} TwoReplies(x: Reply, y: Reply, chunks: seq<Bytes>)
    requires Sendable(x) && Sendable(y) && Depth(x) == Depth(y) == 0
    requires Concat(chunks) == Encode(x) + Encode(y) && Fits(NEW_READER, chunks)
    ensures FeedPieces(NEW_READER, chunks).0 == [x, y]
  {
    TwoEncoded(x, y);
    StreamRoundTrip([x, y], chunks);
  }

  lemma {:induction false} TwoEncoded(x: Reply, y: Reply)
    ensures EncodeAll([x, y]) == Encode(x) + Encode(y)
  {
    assert [x, y][1..] == [y] && [y][1..] == [];
    assert EncodeAll([y]) == Encode(y) + EncodeAll([]);
  }

  lemma {:induction false} TwoJoined(chunks: seq<Bytes>)
    requires |chunks| == 2
    ensures Concat(chunks) == chunks[0] + chunks[1]
  {
    assert chunks[1..] == [chunks[1]];
    assert Concat([chunks[1]]) == chunks[1] + Concat([]);
  }

  lemma {:induction false} TwoFit(chunks: seq<Bytes>)
    requires |chunks| == 2 && |chunks[0]| <= INT_MAX && |chunks[1]| <= INT_MAX
    requires FeedOnce(NEW_READER, chunks[0]).1 == NEW_READER
    ensures Fits(NEW_READER, chunks)
  {
    var last := chunks[1..];
    assert last[1..] == [];
    FeedIs(NEW_READER, last[0]);
    assert Fits(NEW_READER, last);
  }

  lemma {:induction false} FirstEmpties(a: Bytes)
    requires FindCrlf(a) < 0 && |a| >= 1021 && |Encode(Status(a))| <= INT_MAX
    ensures FeedOnce(NEW_READER, Encode(Status(a))) == ([Status(a)], NEW_READER)
  {
    var s := Encode(Status(a));
    StatusFirst(a, []);
    assert s + [] == s;
    AllRead(s, Status(a));
  }

  /** A kilobyte that is one reply leaves the buffer empty. */
  lemma {:induction false} AllRead(s: Bytes, v: Reply)
    requires |s| >= 1024 && GetOne([ROOT], s, C32) == Got(v, [])
    ensures FeedOnce(NEW_READER, s) == ([v], NEW_READER)
  {
    var h := NewWith(s);
    NextIs(h);
    TrimKeeps(s, |s|);
    assert Drain(NEW_READER) == ([], NEW_READER);
    assert [v] + [] == [v];
  }

  /** Cut into these pieces a stream comes to what it comes to fed at once. */
  ghost predicate AsAtOnce(chunks: seq<Bytes>)
  {
    var (out, end), whole := FeedPieces(NEW_READER, chunks), FeedOnce(NEW_READER, Concat(chunks));
    out == whole.0 && View(end) == View(whole.1)
  }

  /** The bound on a stream of any kind: cutting makes no difference to a new reader if and only if no
      more bytes are fed than an int holds. */
  lemma ChunkLimit(n: nat)
    ensures (forall chunks: seq<Bytes> :: |Concat(chunks)| <= n ==> AsAtOnce(chunks)) <==> n <= INT_MAX
  {
    if n <= INT_MAX {
      forall chunks: seq<Bytes> | |Concat(chunks)| <= n
        ensures AsAtOnce(chunks)
      {
        ShortStreamFits(NEW_READER, chunks);
        PiecesJoin(NEW_READER, chunks);
        FeedIs(NEW_READER, Concat(chunks));
      }
    } else {
      var chunks := CutMatters();
    }
  }

  /** The first stream with which it does: two replies in pieces, one at once. */
  lemma CutMatters() returns (chunks: seq<Bytes>)
    ensures |Concat(chunks)| == INT_MAX + 1 && !AsAtOnce(chunks)
    ensures |FeedPieces(NEW_READER, chunks).0| == 2 && |FeedOnce(NEW_READER, Concat(chunks)).0| == 1
  {
    var a, b := Zeros(1021), Zeros(INT_MAX + 1 - 1024 - 3);
    chunks := [Encode(Status(a)), Encode(Status(b))];
    SecondLost(a, b);
    SecondComes(a, b, chunks);
  }

  // ---- a bulk string at once ----

  /** A bulk string fed at once, however long, comes out if and only if the end of its length line is
      among the bytes that are searched: up to 2^31 bytes after the type byte, or just beyond a multiple
      of 2^32. */
  lemma BulkExact(text: Bytes)
    requires |text| <= I64_MAX
    ensures Comes(Str(text), Encode(Str(text))) <==> Seen(|Encode(Str(text))| - 1) >= |Print(|text|)| + 2
  {
    var s := Encode(Str(text));
    var body := Print(|text|) + CRLF + (text + CRLF);
    assert s == [36] + body;
    BulkSeek(text, body);
    BulkStep(text, body);
    if Seek(body, C32) >= 0 {
      OneStep(Str(text), s);
    } else {
      NoReply(s, WithKind([ROOT], KString), body);
    }
  }

  lemma OneStep(t: Reply, s: Bytes)
    requires s != [] && Step([ROOT], s, C32) == Done([], [], [t])
    ensures Comes(t, s)
  {
    assert GetOne([ROOT], s, C32) == Got(t, []);
    WholeReply(t, s);
  }

  lemma NoReply(s: Bytes, stack: Stack, rest: Bytes)
    requires s != [] && Step([ROOT], s, C32) == Stuck(stack, rest)
    ensures FeedOnce(NEW_READER, s).0 == []
  {
    var h := NewWith(s);
    assert GetOne([ROOT], s, C32) == Pending(stack, rest);
    NextIs(h);
  }

  /** Where the length line is found to end, or that it is not. */
  lemma BulkSeek(text: Bytes, body: Bytes)
    requires |text| <= I64_MAX && body == Print(|text|) + CRLF + (text + CRLF)
    ensures Seek(body, C32) == if Seen(|body|) >= |Print(|text|)| + 2 then |Print(|text|)| else -1
  {
    var digits, n := Print(|text|), Seen(|body|);
    DigitsCanonical(|text|);
    if n >= |digits| + 2 {
      var more := body[|digits| + 2..n];
      assert body[..n] == digits + CRLF + more;
      NoCr(digits);
      LineEnds(digits, more);
    } else {
      assert body[..n] == (digits + [13])[..n];
      OneCr(digits, n);
    }
  }

  lemma {:induction false} OneCr(digits: Bytes, n: nat)
    requires (forall i :: 0 <= i < |digits| ==> digits[i] != 13) && n <= |digits| + 1
    ensures FindCrlf((digits + [13])[..n]) < 0
    decreases n
  {
    var s := (digits + [13])[..n];
    if n >= 2 {
      assert digits != [] && s[0] == digits[0];
      assert s[1..] == (digits[1..] + [13])[..n - 1];
      OneCr(digits[1..], n - 1);
    }
  }

  lemma BulkStep(text: Bytes, body: Bytes)
    requires |text| <= I64_MAX && body == Print(|text|) + CRLF + (text + CRLF)
    requires Seek(body, C32) == |Print(|text|)| || Seek(body, C32) == -1
    ensures var stack := WithKind([ROOT], KString);
            Step([ROOT], [36] + body, C32)
            == if Seek(body, C32) >= 0 then Done([], [], [Str(text)]) else Stuck(stack, body)
  {
    var stack := WithKind([ROOT], KString);
    assert ([36] + body)[1..] == body;
    assert Typed(stack, body, C32) == BulkItem(stack, body, C32);
    BulkWhole(stack, text, body);
  }

  lemma BulkWhole(stack: Stack, text: Bytes, body: Bytes)
    requires Shaped(stack) && |stack| == 1 && |text| <= I64_MAX && body == Print(|text|) + CRLF + (text + CRLF)
    requires Seek(body, C32) == |Print(|text|)| || Seek(body, C32) == -1
    ensures BulkItem(stack, body, C32) == if Seek(body, C32) >= 0 then Done([], [], [Str(text)]) else Stuck(stack, body)
  {
    if Seek(body, C32) >= 0 {
      BulkSlices(text, body);
      NumberText(|text|);
      BulkLength(stack, body, |Print(|text|)|, |text|);
      BulkDone(stack, text, body, |Print(|text|)| + 2);
    }
  }

  lemma BulkLength(stack: Stack, body: Bytes, n: nat, len: int)
    requires Shaped(stack) && Seek(body, C32) == n && ParseLL(body[..n]) == Some(len)
    ensures BulkItem(stack, body, C32) == BulkBody(stack, body, n + 2, len)
  {
  }

  lemma BulkDone(stack: Stack, text: Bytes, body: Bytes, n: nat)
    requires Shaped(stack) && |stack| == 1 && n + |text| + 2 == |body| && body[n..n + |text|] == text
    ensures BulkBody(stack, body, n, |text|) == Done([], [], [Str(text)])
  {
    assert body[n + |text| + 2..] == [];
    assert Finish(stack, Str(text)) == ([], [Str(text)]);
  }

  lemma BulkSlices(text: Bytes, body: Bytes)
    requires body == Print(|text|) + CRLF + (text + CRLF)
    ensures var n := |Print(|text|)|;
            && body[..n] == Print(|text|) && body[n + 2..n + 2 + |text|] == text && body[n + 2 + |text| + 2..] == []
  {
  }
}
