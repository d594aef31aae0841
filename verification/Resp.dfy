/** The reply reader as a machine over a stack of tasks and the bytes not read yet: with the
    lengths that the code keeps in an int cut to one, and over unbounded integers. */
module Resp {
  import opened U32
  import opened Options
  import opened Decimal
  import opened Seqs

  type Bytes = seq<byte>

  const INT_MAX: int := 0x7FFF_FFFF
  const CRLF: Bytes := [13, 10]

  datatype Reply =
    | Status(text: Bytes)
    | Error(text: Bytes)
    | Str(text: Bytes)
    | Int(v: int)
    | Nil
    | Arr(items: seq<Reply>)

  datatype Kind = KError | KStatus | KInteger | KString | KArray

  /** Overflow is no error the code reports: an int runs over, and what it does then is undefined. */
  datatype Problem =
    | BadType(b: byte)
    | BadInteger
    | BadBulkLength
    | BulkRange
    | BadMultiLength
    | MultiRange
    | TooDeep
    | Overflow

  /** The integers the machine computes with. */
  datatype Ints = Unbounded | C32

  /** redisReadTask: the type if it is known; for an array its size and the replies it has so far;
      the place in the enclosing array. */
  datatype Task = Task(kind: Option<Kind>, elements: int, idx: int, items: seq<Reply>)

  type Stack = seq<Task>

  const ROOT: Task := Task(None, -1, -1, [])

  function Fresh(idx: int): Task { Task(None, -1, idx, []) }

  function Top(stack: Stack): Task
    requires stack != []
  {
    stack[|stack| - 1]
  }

  function SetTop(stack: Stack, t: Task): (r: Stack)
    requires stack != []
    ensures |r| == |stack| && Top(r) == t
  {
    stack[|stack| - 1 := t]
  }

  /** An array being read: more elements are to come, and next is the place of the one underway. */
  predicate Open(t: Task, next: int)
  {
    t.kind == Some(KArray) && 0 <= next < t.elements <= INT_MAX && |t.items| == next
  }

  /** At most nine tasks, arrays below the top one. */
  ghost predicate Shaped(stack: Stack)
  {
    && 1 <= |stack| <= 9 && Top(stack).items == []
    && (forall i :: 0 <= i < |stack| - 1 ==> Open(stack[i], stack[i + 1].idx))
  }

  /** The stack between steps. */
  ghost predicate StackOk(stack: Stack)
  {
    Shaped(stack) && !(|stack| == 9 && Top(stack).kind == Some(KArray))
  }

  // ---- one item ----

  /** Where the first CR LF is, or -1. */
  function FindCrlf(s: Bytes): (n: int)
    ensures -1 <= n && (n >= 0 ==> n + 2 <= |s| && s[n] == 13 && s[n + 1] == 10)
  {
    if |s| < 2 then -1
    else if s[0] == 13 && s[1] == 10 then 0
    else
      var n := FindCrlf(s[1..]);
      if n < 0 then -1 else n + 1
  }

  /** The most unread bytes seekNewline can search: one more than the largest int. */
  const SEEK: int := 0x8000_0000

  /** How many of len bytes seekNewline looks at: it takes len - 1 for an int. */
  function Seen(len: nat): (n: nat)
    ensures n <= len && n <= SEEK
    ensures len <= SEEK ==> n == len
  {
    Max(0, Signed(len - 1) + 1)
  }

  /** seekNewline */
  function Seek(s: Bytes, c: Ints := Unbounded): (n: int)
    ensures -1 <= n && (n >= 0 ==> n + 2 <= |s| && s[n] == 13 && s[n + 1] == 10)
    ensures c.Unbounded? || |s| <= SEEK ==> n == FindCrlf(s)
    ensures c.C32? ==> n + 2 <= SEEK
  {
    assert |s| <= SEEK ==> s[..Seen(|s|)] == s;
    if c.C32? then FindCrlf(s[..Seen(|s|)]) else FindCrlf(s)
  }

  /** readLine adds 2 to the length of the line, an int. */
  predicate RunsOver(n: int, c: Ints) { c.C32? && n + 2 > INT_MAX }

  function KindOf(b: byte): Option<Kind>
  {
    if b == 45 then Some(KError) else if b == 43 then Some(KStatus) else if b == 58 then Some(KInteger)
    else if b == 36 then Some(KString) else if b == 42 then Some(KArray) else None
  }

  /** moveToNextTask once the top task has produced v: the stack that is left (empty when the reply
      is complete), and the complete reply. */
  function Finish(stack: Stack, v: Reply): (r: (Stack, seq<Reply>))
    requires 1 <= |stack| && forall i :: 0 <= i < |stack| - 1 ==> Open(stack[i], stack[i + 1].idx)
    decreases |stack|
  {
    var n := |stack| - 1;
    if n == 0 then
      ([], [v])
    else
      var items := stack[n - 1].items + [v];
      if stack[n].idx == stack[n - 1].elements - 1 then
        Finish(stack[..n], Arr(items))
      else
        (stack[..n - 1] + [stack[n - 1].(items := items), Fresh(stack[n].idx + 1)], [])
  }

  /** What processItem comes to: nothing more can be done with these bytes; an item was read and
      perhaps completed a reply; or the stream is bad. */
  datatype Outcome = Stuck(stack: Stack, rest: Bytes)
                   | Done(stack: Stack, rest: Bytes, out: seq<Reply>)
                   | Fail(problem: Problem)

  function Placed(stack: Stack, v: Reply, rest: Bytes): Outcome
    requires Shaped(stack)
  {
    var (s, out) := Finish(stack, v);
    Done(s, rest, out)
  }

  /** processLineItem */
  function LineItem(stack: Stack, rest: Bytes, c: Ints := Unbounded): Outcome
    requires Shaped(stack)
  {
    var n := Seek(rest, c);
    if n < 0 then Stuck(stack, rest)
    else if RunsOver(n, c) then Fail(Overflow)
    else
      var line := rest[..n];
      if Top(stack).kind == Some(KInteger) then
        match ParseLL(line)
        case None => Fail(BadInteger)
        case Some(v) => Placed(stack, Int(v), rest[n + 2..])
      else
        Placed(stack, if Top(stack).kind == Some(KError) then Error(line) else Status(line), rest[n + 2..])
  }

  /** processBulkItem; the two bytes after the payload are skipped unread. */
  function BulkItem(stack: Stack, rest: Bytes, c: Ints := Unbounded): Outcome
    requires Shaped(stack)
  {
    var n := Seek(rest, c);
    if n < 0 then Stuck(stack, rest)
    else
      match ParseLL(rest[..n])
      case None => Fail(BadBulkLength)
      case Some(len) => BulkBody(stack, rest, n + 2, len)
  }

  /** The rest of it, once the line before place n gave the length. */
  function BulkBody(stack: Stack, rest: Bytes, n: nat, len: int): Outcome
    requires Shaped(stack) && n <= |rest|
  {
    if len < -1 then Fail(BulkRange)
    else if len == -1 then Placed(stack, Nil, rest[n..])
    else if n + len + 2 <= |rest| then Placed(stack, Str(rest[n..n + len]), rest[n + len + 2..])
    else Stuck(stack, rest)
  }

  /** processMultiBulkItem */
  function MultiItem(stack: Stack, rest: Bytes, c: Ints := Unbounded): Outcome
    requires Shaped(stack)
  {
    if |stack| == 9 then Fail(TooDeep)
    else
      var n := Seek(rest, c);
      if n < 0 then Stuck(stack, rest)
      else if RunsOver(n, c) then Fail(Overflow)
      else
        match ParseLL(rest[..n])
        case None => Fail(BadMultiLength)
        case Some(k) =>
          if k < -1 || k > INT_MAX then Fail(MultiRange)
          else if k == -1 then Placed(stack, Nil, rest[n + 2..])
          else if k == 0 then Placed(stack, Arr([]), rest[n + 2..])
          else Done(SetTop(stack, Top(stack).(elements := k)) + [Fresh(0)], rest[n + 2..], [])
  }

  function Typed(stack: Stack, rest: Bytes, c: Ints := Unbounded): Outcome
    requires Shaped(stack) && Top(stack).kind.Some?
  {
    match Top(stack).kind.value
    case KString => BulkItem(stack, rest, c)
    case KArray => MultiItem(stack, rest, c)
    case _ => LineItem(stack, rest, c)
  }

  function WithKind(stack: Stack, k: Kind): (r: Stack)
    requires Shaped(stack)
    ensures Shaped(r) && Top(r).kind == Some(k) && |r| == |stack|
  {
    var r := SetTop(stack, Top(stack).(kind := Some(k)));
    assert (forall i :: 0 <= i < |r| - 1 ==> r[i] == stack[i])
           && (forall i :: 0 <= i < |r| ==> r[i].idx == stack[i].idx);
    r
  }

  /** processItem */
  function Step(stack: Stack, rest: Bytes, c: Ints := Unbounded): Outcome
    requires StackOk(stack)
  {
    var top := Top(stack);
    if top.kind.Some? then Typed(stack, rest, c)
    else if rest == [] then Stuck(stack, rest)
    else
      match KindOf(rest[0])
      case None => Fail(BadType(rest[0]))
      case Some(k) => Typed(WithKind(stack, k), rest[1..], c)
  }

  lemma TypeRead(stack: Stack, s: Bytes, k: Kind, c: Ints)
    requires StackOk(stack) && Top(stack).kind == None && s != [] && KindOf(s[0]) == Some(k)
    ensures Step(stack, s, c) == Typed(WithKind(stack, k), s[1..], c)
  {
  }

  // ---- the stack index stays within its array ----

  lemma {:induction false} FinishOk(stack: Stack, v: Reply)
    requires 1 <= |stack| <= 9 && forall i :: 0 <= i < |stack| - 1 ==> Open(stack[i], stack[i + 1].idx)
    ensures var (s, out) := Finish(stack, v);
            if s == [] then |out| == 1 else Shaped(s) && out == [] && Top(s).kind == None
    decreases |stack|
  {
    var n := |stack| - 1;
    if n > 0 {
      var items := stack[n - 1].items + [v];
      if stack[n].idx == stack[n - 1].elements - 1 {
        FinishOk(stack[..n], Arr(items));
      } else {
        var s := stack[..n - 1] + [stack[n - 1].(items := items), Fresh(stack[n].idx + 1)];
        assert forall i :: 0 <= i < n - 1 ==> s[i] == stack[i];
        assert s[n - 1].idx == stack[n - 1].idx;
      }
    }
  }

  ghost predicate OutcomeOk(o: Outcome, rest: Bytes)
  {
    match o
    case Stuck(s, r) => StackOk(s) && |r| <= |rest|
    case Done(s, r, out) => (if s == [] then |out| == 1 else StackOk(s) && out == []) && |r| < |rest|
    case Fail(_) => true
  }

  lemma PlacedOk(stack: Stack, v: Reply, rest: Bytes, r: Bytes)
    requires Shaped(stack) && |r| < |rest|
    ensures OutcomeOk(Placed(stack, v, r), rest)
  {
    FinishOk(stack, v);
  }

  lemma LineOk(stack: Stack, rest: Bytes, c: Ints)
    requires StackOk(stack)
    ensures OutcomeOk(LineItem(stack, rest, c), rest)
  {
    var n := Seek(rest, c);
    if n >= 0 {
      PlacedOk(stack, Error(rest[..n]), rest, rest[n + 2..]);
      PlacedOk(stack, Status(rest[..n]), rest, rest[n + 2..]);
      if ParseLL(rest[..n]).Some? {
        PlacedOk(stack, Int(ParseLL(rest[..n]).value), rest, rest[n + 2..]);
      }
    }
  }

  lemma BulkOk(stack: Stack, rest: Bytes, c: Ints)
    requires StackOk(stack)
    ensures OutcomeOk(BulkItem(stack, rest, c), rest)
  {
    var n := Seek(rest, c);
    if n >= 0 && ParseLL(rest[..n]).Some? {
      var len := ParseLL(rest[..n]).value;
      PlacedOk(stack, Nil, rest, rest[n + 2..]);
      if 0 <= len && n + 2 + len + 2 <= |rest| {
        PlacedOk(stack, Str(rest[n + 2..n + 2 + len]), rest, rest[n + 2 + len + 2..]);
      }
    }
  }

  lemma MultiOk(stack: Stack, rest: Bytes, c: Ints)
    requires Shaped(stack) && Top(stack).kind == Some(KArray)
    ensures OutcomeOk(MultiItem(stack, rest, c), rest)
  {
    var n := Seek(rest, c);
    if |stack| < 9 && n >= 0 && ParseLL(rest[..n]).Some? {
      var k := ParseLL(rest[..n]).value;
      PlacedOk(stack, Nil, rest, rest[n + 2..]);
      PlacedOk(stack, Arr([]), rest, rest[n + 2..]);
      if 0 < k <= INT_MAX {
        PushOk(stack, k);
      }
    }
  }

  lemma PushOk(stack: Stack, k: int)
    requires Shaped(stack) && |stack| < 9 && Top(stack).kind == Some(KArray) && 0 < k <= INT_MAX
    ensures StackOk(SetTop(stack, Top(stack).(elements := k)) + [Fresh(0)])
  {
    var s := SetTop(stack, Top(stack).(elements := k)) + [Fresh(0)];
    assert (forall i :: 0 <= i < |stack| - 1 ==> s[i] == stack[i])
           && (forall i :: 0 <= i < |stack| ==> s[i].idx == stack[i].idx);
  }

  lemma TypedOk(stack: Stack, rest: Bytes, c: Ints)
    requires Shaped(stack) && Top(stack).kind.Some?
    ensures OutcomeOk(Typed(stack, rest, c), rest)
  {
    match Top(stack).kind.value
    case KString => BulkOk(stack, rest, c);
    case KArray => MultiOk(stack, rest, c);
    case _ => LineOk(stack, rest, c);
  }

  /** Whatever the bytes, a step leaves a proper stack or none, and consumes something. */
  lemma StepOk(stack: Stack, rest: Bytes, c: Ints := Unbounded)
    requires StackOk(stack)
    ensures OutcomeOk(Step(stack, rest, c), rest)
  {
    if Top(stack).kind.Some? {
      TypedOk(stack, rest, c);
    } else if rest != [] && KindOf(rest[0]).Some? {
      TypedOk(WithKind(stack, KindOf(rest[0]).value), rest[1..], c);
    }
  }

  // ---- more bytes change nothing that was read ----

  lemma {:induction false} CrlfKept(a: Bytes, b: Bytes)
    requires FindCrlf(a) >= 0
    ensures FindCrlf(a + b) == FindCrlf(a)
  {
    if !(a[0] == 13 && a[1] == 10) {
      assert (a + b)[1..] == a[1..] + b;
      CrlfKept(a[1..], b);
    }
  }

  /** o is what processItem came to on some bytes; o' what it comes to when b follows them. */
  ghost predicate Extends(o: Outcome, o': Outcome, b: Bytes)
  {
    match o
    case Stuck(s, r) => StackOk(s) && o' == Step(s, r + b)
    case Done(s, r, out) => o' == Done(s, r + b, out)
    case Fail(_) => o' == o
  }

  lemma SlicesKept(a: Bytes, b: Bytes, i: nat, j: nat)
    requires i <= j <= |a|
    ensures (a + b)[i..j] == a[i..j] && (a + b)[..j] == a[..j] && (a + b)[j..] == a[j..] + b
  {
  }

  lemma LineMore(stack: Stack, a: Bytes, b: Bytes)
    requires StackOk(stack) && Top(stack).kind.Some?
    requires Top(stack).kind != Some(KString) && Top(stack).kind != Some(KArray)
    ensures Extends(LineItem(stack, a), LineItem(stack, a + b), b)
  {
    var n := Seek(a);
    if n >= 0 {
      CrlfKept(a, b);
      SlicesKept(a, b, 0, n);
      SlicesKept(a, b, 0, n + 2);
    }
  }

  lemma BulkBodyMore(stack: Stack, a: Bytes, b: Bytes, n: nat, len: int)
    requires StackOk(stack) && n <= |a|
    ensures var o := BulkBody(stack, a, n, len);
            if o.Stuck? then o == Stuck(stack, a) else Extends(o, BulkBody(stack, a + b, n, len), b)
  {
    SlicesKept(a, b, n, n);
    if 0 <= len && n + len + 2 <= |a| {
      SlicesKept(a, b, n, n + len);
      SlicesKept(a, b, n, n + len + 2);
    }
  }

  lemma BulkMore(stack: Stack, a: Bytes, b: Bytes)
    requires StackOk(stack) && Top(stack).kind == Some(KString)
    ensures Extends(BulkItem(stack, a), BulkItem(stack, a + b), b)
  {
    var n := Seek(a);
    if n >= 0 {
      CrlfKept(a, b);
      SlicesKept(a, b, 0, n);
      if ParseLL(a[..n]).Some? {
        BulkBodyMore(stack, a, b, n + 2, ParseLL(a[..n]).value);
      }
    }
  }

  lemma MultiMore(stack: Stack, a: Bytes, b: Bytes)
    requires Shaped(stack) && Top(stack).kind == Some(KArray)
    ensures Extends(MultiItem(stack, a), MultiItem(stack, a + b), b)
  {
    var n := Seek(a);
    if n >= 0 {
      CrlfKept(a, b);
      assert (a + b)[..n] == a[..n] && (a + b)[n + 2..] == a[n + 2..] + b;
    }
  }

  lemma TypedMore(stack: Stack, a: Bytes, b: Bytes)
    requires Shaped(stack) && Top(stack).kind.Some?
    ensures Extends(Typed(stack, a), Typed(stack, a + b), b)
  {
    match Top(stack).kind.value
    case KString => BulkMore(stack, a, b);
    case KArray => MultiMore(stack, a, b);
    case _ => LineMore(stack, a, b);
  }

  lemma StepMore(stack: Stack, a: Bytes, b: Bytes)
    requires StackOk(stack)
    ensures Extends(Step(stack, a), Step(stack, a + b), b)
  {
    if Top(stack).kind.Some? {
      TypedMore(stack, a, b);
    } else if a == [] {
      assert a + b == b;
    } else if KindOf(a[0]).Some? {
      assert (a + b)[1..] == a[1..] + b;
      TypedMore(WithKind(stack, KindOf(a[0]).value), a[1..], b);
    }
  }

  // ---- reading replies until the bytes run out ----

  /** How a reader is left: in the middle of a reply with unread bytes, or failed for good. */
  datatype Reader = Waiting(stack: Stack, rest: Bytes) | Failed(problem: Problem)

  ghost predicate ReaderOk(r: Reader) { r.Waiting? ==> StackOk(r.stack) }

  const NEW: Reader := Waiting([ROOT], [])

  /** All the replies these bytes complete, and how the reader is left. */
  function Parse(stack: Stack, rest: Bytes): (seq<Reply>, Reader)
    requires StackOk(stack)
    decreases |rest|
  {
    StepOk(stack, rest);
    match Step(stack, rest)
    case Fail(e) => ([], Failed(e))
    case Stuck(s, r) => ([], Waiting(s, r))
    case Done(s, r, out) =>
      var (more, end) := Parse(if s == [] then [ROOT] else s, r);
      (out + more, end)
  }

  lemma {:induction false} ParseOk(stack: Stack, rest: Bytes)
    requires StackOk(stack)
    ensures ReaderOk(Parse(stack, rest).1)
    decreases |rest|
  {
    StepOk(stack, rest);
    match Step(stack, rest)
    case Fail(e) =>
    case Stuck(s, r) =>
    case Done(s, r, out) => ParseOk(if s == [] then [ROOT] else s, r);
  }

  /** redisReaderFeed, then redisReaderGetReply until there is no reply. */
  function Feed(r: Reader, bytes: Bytes): (seq<Reply>, Reader)
    requires ReaderOk(r)
  {
    match r
    case Failed(_) => ([], r)
    case Waiting(stack, rest) => Parse(stack, rest + bytes)
  }

  function FeedAll(r: Reader, chunks: seq<Bytes>): (seq<Reply>, Reader)
    requires ReaderOk(r)
    decreases |chunks|
  {
    if chunks == [] then Feed(r, [])
    else
      var (out, r1) := Feed(r, chunks[0]);
      FeedOk(r, chunks[0]);
      var (more, end) := FeedAll(r1, chunks[1..]);
      (out + more, end)
  }

  lemma FeedOk(r: Reader, bytes: Bytes)
    requires ReaderOk(r)
    ensures ReaderOk(Feed(r, bytes).1)
  {
    if r.Waiting? {
      ParseOk(r.stack, r.rest + bytes);
    }
  }

  /** Parsing in two parts. */
  ghost predicate InTwo(stack: Stack, a: Bytes, b: Bytes)
    requires StackOk(stack)
  {
    var (out, r) := Parse(stack, a);
    ReaderOk(r) && Parse(stack, a + b) == (out + Feed(r, b).0, Feed(r, b).1)
  }

  lemma {:induction false} ParseSplit(stack: Stack, a: Bytes, b: Bytes)
    requires StackOk(stack)
    ensures InTwo(stack, a, b)
    decreases |a|
  {
    StepOk(stack, a);
    StepMore(stack, a, b);
    match Step(stack, a)
    case Fail(e) =>
      assert Parse(stack, a).0 + Feed(Failed(e), b).0 == [];
    case Stuck(s, r) =>
      SameStep(stack, a + b, s, r + b);
      assert [] + Parse(s, r + b).0 == Parse(s, r + b).0;
    case Done(s, r, out) =>
      var s1 := if s == [] then [ROOT] else s;
      ParseSplit(s1, r, b);
      DoneInTwo(stack, a, b, s1, r, out);
  }

  lemma DoneInTwo(stack: Stack, a: Bytes, b: Bytes, s1: Stack, r: Bytes, out: seq<Reply>)
    requires StackOk(stack) && StackOk(s1) && InTwo(s1, r, b)
    requires Step(stack, a).Done? && Step(stack, a).rest == r && Step(stack, a).out == out
    requires s1 == if Step(stack, a).stack == [] then [ROOT] else Step(stack, a).stack
    requires Step(stack, a + b) == Done(Step(stack, a).stack, r + b, out)
    ensures InTwo(stack, a, b)
  {
    ParseDone(stack, a, s1, r, out);
    ParseDone(stack, a + b, s1, r + b, out);
    var (more, end) := Parse(s1, r);
    Assoc(out, more, Feed(end, b).0);
  }

  lemma {:induction false} ParseDone(stack: Stack, x: Bytes, s1: Stack, r: Bytes, out: seq<Reply>)
    requires StackOk(stack) && Step(stack, x).Done? && Step(stack, x).rest == r && Step(stack, x).out == out
    requires s1 == if Step(stack, x).stack == [] then [ROOT] else Step(stack, x).stack
    ensures StackOk(s1) && Parse(stack, x) == (out + Parse(s1, r).0, Parse(s1, r).1)
  {
    StepOk(stack, x);
  }

  lemma {:induction false} SameStep(s: Stack, r: Bytes, s': Stack, r': Bytes)
    requires StackOk(s) && StackOk(s') && Step(s, r) == Step(s', r')
    ensures Parse(s, r) == Parse(s', r')
  {
    StepOk(s, r);
    StepOk(s', r');
  }

  /** Over unbounded integers the reader is chunk-independent: however a byte stream is cut into
      feeds, draining after each one, the same replies come out in all and the reader ends the same. */
  lemma {:induction false} ChunksJoin(r: Reader, chunks: seq<Bytes>)
    requires ReaderOk(r)
    ensures FeedAll(r, chunks) == Feed(r, Concat(chunks))
    decreases |chunks|
  {
    if chunks != [] {
      var first, others := chunks[0], Concat(chunks[1..]);
      FeedOk(r, first);
      if r.Waiting? {
        ParseSplit(r.stack, r.rest + first, others);
        Assoc(r.rest, first, others);
      } else {
        var none := Feed(r, first).0;
        assert none + none == [];
      }
      ChunksJoin(Feed(r, first).1, chunks[1..]);
    }
  }

  // ---- one reply at a time ----

  datatype Got = Got(reply: Reply, rest: Bytes) | Pending(stack: Stack, rest: Bytes) | Bad(problem: Problem)

  /** The loop of redisReaderGetReply: items until the reply is complete. */
  function GetOne(stack: Stack, rest: Bytes, c: Ints := Unbounded): Got
    requires StackOk(stack)
    decreases |rest|
  {
    StepOk(stack, rest, c);
    match Step(stack, rest, c)
    case Fail(e) => Bad(e)
    case Stuck(s, r) => Pending(s, r)
    case Done(s, r, out) => if s == [] then Got(out[0], r) else GetOne(s, r, c)
  }

  lemma {:induction false} PassedOn(stack: Stack, s: Bytes, stack': Stack, rest: Bytes)
    requires StackOk(stack) && StackOk(stack') && Step(stack, s) == Done(stack', rest, [])
    ensures Parse(stack, s) == Parse(stack', rest)
  {
    StepOk(stack, s);
    var (out, end) := Parse(stack', rest);
    assert [] + out == out;
  }

  /** Draining is getting one reply after another. */
  lemma {:induction false} ParseGets(stack: Stack, rest: Bytes)
    requires StackOk(stack)
    ensures match GetOne(stack, rest)
            case Got(v, r) => |r| < |rest| && Parse(stack, rest) == ([v] + Parse([ROOT], r).0, Parse([ROOT], r).1)
            case Pending(s, r) => Parse(stack, rest) == ([], Waiting(s, r))
            case Bad(e) => Parse(stack, rest) == ([], Failed(e))
    decreases |rest|
  {
    StepOk(stack, rest);
    match Step(stack, rest)
    case Fail(e) =>
    case Stuck(s, r) =>
    case Done(s, r, out) =>
      if s != [] {
        ParseGets(s, r);
        PassedOn(stack, rest, s, r);
      } else {
        assert out == [out[0]];
      }
  }

  /** A reader without unread bytes has nothing to give. */
  lemma {:induction false} NothingToRead(stack: Stack, c: Ints)
    requires StackOk(stack)
    ensures GetOne(stack, [], c) == Pending(stack, [])
  {
  }

  /** What is left is the end of what there was. */
  ghost predicate Ends(rest: Bytes, whole: Bytes)
  {
    |rest| <= |whole| && rest == whole[|whole| - |rest|..]
  }

  lemma EndsOn(a: Bytes, b: Bytes, c: Bytes)
    requires Ends(a, b) && Ends(b, c)
    ensures Ends(a, c)
  {
    assert forall i :: 0 <= i < |a| ==> a[i] == b[|b| - |a| + i] == c[|c| - |a| + i];
  }

  ghost predicate LeavesEnd(o: Outcome, rest: Bytes)
  {
    match o
    case Fail(_) => true
    case Stuck(_, r) => Ends(r, rest)
    case Done(_, r, _) => Ends(r, rest)
  }

  lemma PlacedLeaves(stack: Stack, v: Reply, rest: Bytes, n: nat)
    requires Shaped(stack) && n <= |rest|
    ensures LeavesEnd(Placed(stack, v, rest[n..]), rest)
  {
  }

  lemma LineLeaves(stack: Stack, rest: Bytes, c: Ints)
    requires Shaped(stack)
    ensures LeavesEnd(LineItem(stack, rest, c), rest)
  {
  }

  lemma BulkLeaves(stack: Stack, rest: Bytes, c: Ints)
    requires Shaped(stack)
    ensures LeavesEnd(BulkItem(stack, rest, c), rest)
  {
    var n := Seek(rest, c);
    if n >= 0 && ParseLL(rest[..n]).Some? {
      var len := ParseLL(rest[..n]).value;
      PlacedLeaves(stack, Nil, rest, n + 2);
      if 0 <= len && n + 2 + len + 2 <= |rest| {
        PlacedLeaves(stack, Str(rest[n + 2..n + 2 + len]), rest, n + 2 + len + 2);
      }
    }
  }

  lemma MultiLeaves(stack: Stack, rest: Bytes, c: Ints)
    requires Shaped(stack)
    ensures LeavesEnd(MultiItem(stack, rest, c), rest)
  {
    var n := Seek(rest, c);
    if n >= 0 {
      PlacedLeaves(stack, Nil, rest, n + 2);
      PlacedLeaves(stack, Arr([]), rest, n + 2);
      assert Ends(rest[n + 2..], rest);
    }
  }

  lemma TypedLeaves(stack: Stack, rest: Bytes, c: Ints)
    requires Shaped(stack) && Top(stack).kind.Some?
    ensures LeavesEnd(Typed(stack, rest, c), rest)
  {
    match Top(stack).kind.value
    case KString => BulkLeaves(stack, rest, c);
    case KArray => MultiLeaves(stack, rest, c);
    case _ => LineLeaves(stack, rest, c);
  }

  lemma StepLeaves(stack: Stack, rest: Bytes, c: Ints)
    requires StackOk(stack)
    ensures LeavesEnd(Step(stack, rest, c), rest)
  {
    if Top(stack).kind.Some? {
      TypedLeaves(stack, rest, c);
    } else if rest != [] && KindOf(rest[0]).Some? {
      TypedLeaves(WithKind(stack, KindOf(rest[0]).value), rest[1..], c);
      match Step(stack, rest, c)
      case Fail(_) =>
      case Stuck(_, r) => EndsOn(r, rest[1..], rest);
      case Done(_, r, _) => EndsOn(r, rest[1..], rest);
    }
  }

  lemma {:induction false} GetOneEnds(stack: Stack, rest: Bytes, c: Ints)
    requires StackOk(stack)
    ensures match GetOne(stack, rest, c)
            case Bad(e) => true
            case Got(v, r) => Ends(r, rest) && |r| < |rest|
            case Pending(s, r) => Ends(r, rest) && StackOk(s)
    decreases |rest|
  {
    StepOk(stack, rest, c);
    StepLeaves(stack, rest, c);
    match Step(stack, rest, c)
    case Fail(e) =>
    case Stuck(s, r) =>
    case Done(s, r, out) =>
      if s != [] {
        GetOneEnds(s, r, c);
        match GetOne(s, r, c)
        case Bad(e) =>
        case Got(v, r') => EndsOn(r', r, rest);
        case Pending(s', r') => EndsOn(r', r, rest);
      }
  }

  // ---- where an int is enough ----

  /** The most unread bytes with which no int can run over: the type byte is read by itself. */
  function Room(stack: Stack): int
    requires stack != []
  {
    if Top(stack).kind.Some? then INT_MAX else INT_MAX + 1
  }

  lemma {:induction false} TypedAgrees(stack: Stack, rest: Bytes)
    requires Shaped(stack) && Top(stack).kind.Some? && |rest| <= SEEK && FindCrlf(rest) + 2 <= INT_MAX
    ensures Typed(stack, rest, C32) == Typed(stack, rest)
  {
    assert Seek(rest, C32) == Seek(rest) && !RunsOver(Seek(rest), C32);
    match Top(stack).kind.value
    case KString => assert BulkItem(stack, rest, C32) == BulkItem(stack, rest);
    case KArray => MultiAgrees(stack, rest);
    case _ => LineAgrees(stack, rest);
  }

  lemma LineAgrees(stack: Stack, rest: Bytes)
    requires Shaped(stack) && Seek(rest, C32) == Seek(rest) && !RunsOver(Seek(rest), C32)
    ensures LineItem(stack, rest, C32) == LineItem(stack, rest)
  {
  }

  lemma MultiAgrees(stack: Stack, rest: Bytes)
    requires Shaped(stack) && Seek(rest, C32) == Seek(rest) && !RunsOver(Seek(rest), C32)
    ensures MultiItem(stack, rest, C32) == MultiItem(stack, rest)
  {
  }

  lemma StepAgrees(stack: Stack, rest: Bytes)
    requires StackOk(stack) && |rest| <= Room(stack)
    ensures Step(stack, rest, C32) == Step(stack, rest)
  {
    if Top(stack).kind.Some? {
      TypedAgrees(stack, rest);
    } else if rest != [] && KindOf(rest[0]).Some? {
      TypedAgrees(WithKind(stack, KindOf(rest[0]).value), rest[1..]);
    }
  }

  /** An item that was read leaves the next one to be read from its type byte. */
  lemma DoneFresh(stack: Stack, rest: Bytes)
    requires StackOk(stack)
    ensures var o := Step(stack, rest); o.Done? && o.stack != [] ==> StackOk(o.stack) && Top(o.stack).kind == None
  {
    StepOk(stack, rest);
    if Top(stack).kind.Some? {
      TypedFresh(stack, rest);
    } else if rest != [] && KindOf(rest[0]).Some? {
      TypedFresh(WithKind(stack, KindOf(rest[0]).value), rest[1..]);
    }
  }

  lemma TypedFresh(stack: Stack, rest: Bytes)
    requires Shaped(stack) && Top(stack).kind.Some?
    ensures var o := Typed(stack, rest); o.Done? && o.stack != [] ==> Top(o.stack).kind == None
  {
    forall v
      ensures Finish(stack, v).0 != [] ==> Top(Finish(stack, v).0).kind == None
    {
      FinishOk(stack, v);
    }
  }

  lemma {:induction false} GetOneAgrees(stack: Stack, rest: Bytes)
    requires StackOk(stack) && |rest| <= Room(stack)
    ensures GetOne(stack, rest, C32) == GetOne(stack, rest)
    decreases |rest|
  {
    StepOk(stack, rest);
    StepAgrees(stack, rest);
    match Step(stack, rest)
    case Fail(e) =>
    case Stuck(s, r) =>
    case Done(s, r, out) => if s != [] { GetOneAgrees(s, r); }
  }

  /** What is left unread still fits with what is to come, if it did before. */
  lemma {:induction false} ParseRoom(stack: Stack, rest: Bytes, k: nat)
    requires StackOk(stack) && |rest| + k <= Room(stack)
    ensures var r := Parse(stack, rest).1;
            ReaderOk(r) && (r.Waiting? ==> |r.rest| + k <= Room(r.stack))
    decreases |rest|
  {
    StepOk(stack, rest);
    StuckRoom(stack, rest, k);
    match Step(stack, rest)
    case Fail(e) =>
    case Stuck(s, r) =>
    case Done(s, r, out) => ParseRoom(if s == [] then [ROOT] else s, r, k);
  }

  lemma StuckRoom(stack: Stack, rest: Bytes, k: nat)
    requires StackOk(stack) && |rest| + k <= Room(stack)
    ensures var o := Step(stack, rest); o.Stuck? ==> o.stack != [] && |o.rest| + k <= Room(o.stack)
  {
    if Top(stack).kind.Some? {
      TypedStuck(stack, rest);
    } else if rest != [] && KindOf(rest[0]).Some? {
      TypedStuck(WithKind(stack, KindOf(rest[0]).value), rest[1..]);
    }
  }

  /** A task that has to wait is left as it is, and so are the bytes. */
  lemma TypedStuck(stack: Stack, rest: Bytes)
    requires Shaped(stack) && Top(stack).kind.Some?
    ensures var o := Typed(stack, rest); o.Stuck? ==> o.stack == stack && o.rest == rest
  {
  }
}
