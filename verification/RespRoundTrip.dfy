/** What the protocol writes, the reader reads back: every reply tree of up to eight nested arrays,
    and no deeper one. Over unbounded integers; RespLimits says how far C's reach. */
module RespRoundTrip {
  import opened U32
  import opened Options
  import opened Decimal
  import opened Resp
  import opened Seqs

  // ---- writing ----

  function Encode(t: Reply): (s: Bytes)
    ensures s != []
    decreases t
  {
    match t
    case Status(text) => [43] + text + CRLF
    case Error(text) => [45] + text + CRLF
    case Int(v) => [58] + Print(v) + CRLF
    case Nil => [36] + Print(-1) + CRLF
    case Str(text) => [36] + Print(|text|) + CRLF + text + CRLF
    case Arr(items) => [42] + Print(|items|) + CRLF + EncodeAll(items)
  }

  function EncodeAll(items: seq<Reply>): Bytes
    decreases items
  {
    if items == [] then [] else Encode(items[0]) + EncodeAll(items[1..])
  }

  /** What the protocol can carry at all. */
  ghost predicate Sendable(t: Reply)
    decreases t
  {
    match t
    case Status(text) => FindCrlf(text) < 0
    case Error(text) => FindCrlf(text) < 0
    case Int(v) => I64_MIN <= v <= I64_MAX
    case Nil => true
    case Str(text) => |text| <= I64_MAX
    case Arr(items) => |items| <= INT_MAX && forall i :: 0 <= i < |items| ==> Sendable(items[i])
  }

  /** The number of nested arrays. */
  function Depth(t: Reply): nat
    decreases t
  {
    if t.Arr? then 1 + DepthAll(t.items) else 0
  }

  function DepthAll(items: seq<Reply>): nat
    decreases items
  {
    if items == [] then 0 else Max(Depth(items[0]), DepthAll(items[1..]))
  }

  // ---- lines ----

  lemma {:induction false} LineEnds(text: Bytes, rest: Bytes)
    requires FindCrlf(text) < 0
    ensures FindCrlf(text + CRLF + rest) == |text|
    decreases |text|
  {
    var s := text + CRLF + rest;
    if text != [] {
      assert s[1..] == text[1..] + CRLF + rest;
      assert |text| >= 2 ==> s[0] == text[0] && s[1] == text[1];
      LineEnds(text[1..], rest);
    }
  }

  lemma {:induction false} NoCr(s: Bytes)
    requires forall i :: 0 <= i < |s| ==> s[i] != 13
    ensures FindCrlf(s) < 0
  {
    if |s| >= 2 {
      NoCr(s[1..]);
    }
  }

  lemma {:induction false} TextLine(text: Bytes, rest: Bytes)
    requires FindCrlf(text) < 0
    ensures var s := text + CRLF + rest; Seek(s) == |text| && s[..|text|] == text && s[|text| + 2..] == rest
  {
    LineEnds(text, rest);
    LineSlices(text, rest);
  }

  lemma NumberText(v: int)
    requires I64_MIN <= v <= I64_MAX
    ensures FindCrlf(Print(v)) < 0 && ParseLL(Print(v)) == Some(v)
  {
    DigitsCanonical(if v < 0 then -v else v);
    NoCr(Print(v));
    ParseExact(Print(v), v);
  }

  /** A number line is read as the number. */
  lemma NumberLine(v: int, rest: Bytes)
    requires I64_MIN <= v <= I64_MAX
    ensures var s := Print(v) + CRLF + rest; var n := Seek(s);
            n >= 0 && ParseLL(s[..n]) == Some(v) && s[n + 2..] == rest
  {
    NumberText(v);
    TextLine(Print(v), rest);
  }

  lemma LineSlices(text: Bytes, rest: Bytes)
    ensures var s := text + CRLF + rest; s[..|text|] == text && s[|text| + 2..] == rest
  {
  }

  // ---- one item at a time ----

  /** The result of parsing on from a place where v was just read. */
  function After(stack: Stack, v: Reply, rest: Bytes): (seq<Reply>, Reader)
    requires Shaped(stack)
  {
    FinishOk(stack, v);
    var (s, out) := Finish(stack, v);
    var (more, end) := Parse(if s == [] then [ROOT] else s, rest);
    (out + more, end)
  }

  /** Finish looks at the top task for its place only. */
  lemma {:induction false} FinishTop(stack: Stack, t: Task, v: Reply)
    requires Shaped(stack) && t.idx == Top(stack).idx
    ensures var s := SetTop(stack, t);
            (forall i :: 0 <= i < |s| - 1 ==> Open(s[i], s[i + 1].idx)) && Finish(s, v) == Finish(stack, v)
  {
    var s := SetTop(stack, t);
    var n := |stack| - 1;
    assert (forall i :: 0 <= i < n ==> s[i] == stack[i]) && (forall i :: 0 <= i <= n ==> s[i].idx == stack[i].idx);
    assert s[..n] == stack[..n];
    if n > 0 {
      assert s[..n - 1] == stack[..n - 1];
    }
  }

  ghost predicate Ready(stack: Stack)
  {
    StackOk(stack) && Top(stack).kind == None
  }

  /** A whole item read in one step. */
  lemma {:induction false} ItemRead(stack: Stack, k: Kind, body: Bytes, v: Reply, rest: Bytes)
    requires Ready(stack) && body != [] && KindOf(body[0]) == Some(k)
    requires Typed(WithKind(stack, k), body[1..] + rest) == Placed(WithKind(stack, k), v, rest)
    ensures Parse(stack, body + rest) == After(stack, v, rest)
  {
    ItemStep(stack, k, body, rest);
    FinishTop(stack, Top(WithKind(stack, k)), v);
    StepOk(stack, body + rest);
    FinishOk(stack, v);
  }

  lemma ItemStep(stack: Stack, k: Kind, body: Bytes, rest: Bytes)
    requires Ready(stack) && body != [] && KindOf(body[0]) == Some(k)
    ensures Step(stack, body + rest) == Typed(WithKind(stack, k), body[1..] + rest)
  {
    assert (body + rest)[0] == body[0] && (body + rest)[1..] == body[1..] + rest;
  }

  lemma Tail(b: byte, text: Bytes, rest: Bytes)
    ensures ([b] + text + CRLF)[1..] + rest == text + CRLF + rest
  {
  }

  lemma TailBulk(b: byte, digits: Bytes, text: Bytes, rest: Bytes)
    ensures ([b] + digits + CRLF + text + CRLF)[1..] + rest == digits + CRLF + (text + CRLF + rest)
  {
    assert ([b] + digits + CRLF + text + CRLF)[1..] == digits + CRLF + text + CRLF;
  }

  lemma {:induction false} LineRead(t: Reply, stack: Stack, rest: Bytes)
    requires Shaped(stack) && Sendable(t) && (t.Status? || t.Error?)
    requires Top(stack).kind == Some(if t.Status? then KStatus else KError)
    ensures Typed(stack, t.text + CRLF + rest) == Placed(stack, t, rest)
  {
    TextLine(t.text, rest);
  }

  lemma {:induction false} ReadLine(t: Reply, stack: Stack, rest: Bytes)
    requires Ready(stack) && Sendable(t) && (t.Status? || t.Error?)
    ensures Parse(stack, Encode(t) + rest) == After(stack, t, rest)
  {
    var k := if t.Status? then KStatus else KError;
    LineRead(t, WithKind(stack, k), rest);
    Tail(Encode(t)[0], t.text, rest);
    ItemRead(stack, k, Encode(t), t, rest);
  }

  lemma {:induction false} NumberRead(t: Reply, stack: Stack, rest: Bytes)
    requires Shaped(stack) && Sendable(t) && (t.Int? || t.Nil?)
    requires Top(stack).kind == Some(if t.Int? then KInteger else KString)
    ensures var v := if t.Int? then t.v else -1; Typed(stack, Print(v) + CRLF + rest) == Placed(stack, t, rest)
  {
    NumberLine(if t.Int? then t.v else -1, rest);
  }

  lemma {:induction false} ReadNumber(t: Reply, stack: Stack, rest: Bytes)
    requires Ready(stack) && Sendable(t) && (t.Int? || t.Nil?)
    ensures Parse(stack, Encode(t) + rest) == After(stack, t, rest)
  {
    var k, v := if t.Int? then KInteger else KString, if t.Int? then t.v else -1;
    NumberRead(t, WithKind(stack, k), rest);
    Tail(Encode(t)[0], Print(v), rest);
    ItemRead(stack, k, Encode(t), t, rest);
  }

  lemma {:induction false} ReadBulk(text: Bytes, stack: Stack, rest: Bytes)
    requires Ready(stack) && |text| <= I64_MAX
    ensures Parse(stack, Encode(Str(text)) + rest) == After(stack, Str(text), rest)
  {
    TailBulk(36, Print(|text|), text, rest);
    BulkRead(text, CRLF, WithKind(stack, KString), rest);
    ItemRead(stack, KString, Encode(Str(text)), Str(text), rest);
  }

  /** The two bytes behind the payload are not looked at. */
  lemma {:induction false} BulkRead(text: Bytes, two: Bytes, stack: Stack, rest: Bytes)
    requires Shaped(stack) && |text| <= I64_MAX && |two| == 2
    ensures BulkItem(stack, Print(|text|) + CRLF + (text + two + rest)) == Placed(stack, Str(text), rest)
  {
    NumberText(|text|);
    TextLine(Print(|text|), text + two + rest);
    PayloadRead(stack, Print(|text|) + CRLF, text, two, rest);
  }

  lemma {:induction false} PayloadRead(stack: Stack, head: Bytes, text: Bytes, two: Bytes, rest: Bytes)
    requires Shaped(stack) && |two| == 2
    ensures BulkBody(stack, head + (text + two + rest), |head|, |text|) == Placed(stack, Str(text), rest)
  {
    var s, tail := head + (text + two + rest), text + two + rest;
    assert s[|head|..] == tail;
    assert tail[..|text|] == text && tail[|text| + 2..] == rest;
    Within(s, |head|, |text|);
  }

  lemma Within(s: Bytes, n: nat, len: nat)
    requires n + len + 2 <= |s|
    ensures s[n..n + len] == s[n..][..len] && s[n + len + 2..] == s[n..][len + 2..]
  {
  }

  // ---- whole trees ----

  /** What reading an encoded tree comes to at some depth of the stack. */
  function Expected(stack: Stack, t: Reply, rest: Bytes): (seq<Reply>, Reader)
    requires Shaped(stack)
  {
    if |stack| + Depth(t) <= 9 then After(stack, t, rest) else ([], Failed(TooDeep))
  }

  /** The stack while element i of an array is read. */
  function Inside(stack: Stack, items: seq<Reply>, i: int): Stack
    requires stack != [] && 0 <= i <= |items|
  {
    SetTop(stack, Task(Some(KArray), |items|, Top(stack).idx, items[..i])) + [Fresh(i)]
  }

  lemma InsideOk(stack: Stack, items: seq<Reply>, i: int)
    requires Ready(stack) && |stack| < 9 && 0 <= i < |items| <= INT_MAX
    ensures Ready(Inside(stack, items, i))
  {
    var s := Inside(stack, items, i);
    var n := |stack| - 1;
    assert (forall j :: 0 <= j < n ==> s[j] == stack[j]) && (forall j :: 0 <= j <= n ==> s[j].idx == stack[j].idx);
  }

  /** An array header opens the array. */
  lemma HeaderStep(stack: Stack, items: seq<Reply>, rest: Bytes)
    requires Ready(stack) && |stack| < 9 && 0 < |items| <= INT_MAX
    ensures MultiItem(WithKind(stack, KArray), Print(|items|) + CRLF + rest) == Done(Inside(stack, items, 0), rest, [])
  {
    NumberLine(|items|, rest);
    var typed := WithKind(stack, KArray);
    var open := Task(Some(KArray), |items|, Top(stack).idx, items[..0]);
    assert Top(typed).(elements := |items|) == open;
    assert SetTop(typed, open) == SetTop(stack, open);
  }

  lemma {:induction false} HeaderRead(stack: Stack, items: seq<Reply>, rest: Bytes)
    requires Ready(stack) && |stack| < 9 && 0 < |items| <= INT_MAX
    ensures Ready(Inside(stack, items, 0))
    ensures Parse(stack, [42] + (Print(|items|) + CRLF + rest)) == Parse(Inside(stack, items, 0), rest)
  {
    InsideOk(stack, items, 0);
    HeaderStep(stack, items, rest);
    var line := Print(|items|) + CRLF + rest;
    assert ([42] + line)[1..] == line;
    assert Step(stack, [42] + line) == Done(Inside(stack, items, 0), rest, []);
    PassedOn(stack, [42] + line, Inside(stack, items, 0), rest);
  }

  /** After element i comes element i + 1. */
  lemma ElementNext(stack: Stack, items: seq<Reply>, i: int)
    requires Ready(stack) && |stack| < 9 && 0 <= i && i + 1 < |items| <= INT_MAX
    ensures Ready(Inside(stack, items, i)) && Ready(Inside(stack, items, i + 1))
    ensures Finish(Inside(stack, items, i), items[i]) == (Inside(stack, items, i + 1), [])
  {
    InsideOk(stack, items, i);
    InsideOk(stack, items, i + 1);
    var s := Inside(stack, items, i);
    var n := |stack|;
    assert s[n - 1].items + [items[i]] == items[..i + 1];
    assert s[..n - 1] + [s[n - 1].(items := items[..i + 1]), Fresh(i + 1)] == Inside(stack, items, i + 1);
  }

  /** After the last element the array itself is done. */
  lemma {:induction false} ElementLast(stack: Stack, items: seq<Reply>, i: int)
    requires Ready(stack) && |stack| < 9 && 0 <= i && i + 1 == |items| <= INT_MAX
    ensures Ready(Inside(stack, items, i))
    ensures Finish(Inside(stack, items, i), items[i]) == Finish(stack, Arr(items))
  {
    InsideOk(stack, items, i);
    var s := Inside(stack, items, i);
    var n := |stack|;
    var t := Task(Some(KArray), |items|, Top(stack).idx, items[..i]);
    assert s[n - 1].items + [items[i]] == items;
    assert s[..n] == SetTop(stack, t);
    FinishTop(stack, t, Arr(items));
  }

  lemma {:induction false} ElementDone(stack: Stack, items: seq<Reply>, i: int, rest: Bytes)
    requires Ready(stack) && |stack| < 9 && 0 <= i < |items| <= INT_MAX
    ensures Ready(Inside(stack, items, i))
    ensures i + 1 < |items| ==>
              (Ready(Inside(stack, items, i + 1))
               && After(Inside(stack, items, i), items[i], rest) == Parse(Inside(stack, items, i + 1), rest))
    ensures i + 1 == |items| ==> After(Inside(stack, items, i), items[i], rest) == After(stack, Arr(items), rest)
  {
    if i + 1 < |items| {
      ElementNext(stack, items, i);
      var (out, end) := Parse(Inside(stack, items, i + 1), rest);
      assert [] + out == out;
    } else {
      ElementLast(stack, items, i);
    }
  }

  lemma {:induction false} EncodedArray(items: seq<Reply>, rest: Bytes)
    ensures Encode(Arr(items)) + rest == [42] + (Print(|items|) + CRLF + (EncodeAll(items) + rest))
  {
    Regroup([42], Print(|items|), CRLF, EncodeAll(items), rest);
  }

  lemma Regroup(a: Bytes, b: Bytes, c: Bytes, d: Bytes, e: Bytes)
    ensures a + b + c + d + e == a + (b + c + (d + e))
  {
    Assoc(a, b, c);
    Assoc(a, b + c, d + e);
    Assoc(a + b + c, d, e);
  }

  lemma {:induction false} ReadTree(t: Reply, stack: Stack, rest: Bytes)
    requires Ready(stack) && Sendable(t)
    ensures Parse(stack, Encode(t) + rest) == Expected(stack, t, rest)
    decreases t, 2, 0
  {
    match t
    case Status(_) => ReadLine(t, stack, rest);
    case Error(_) => ReadLine(t, stack, rest);
    case Int(_) => ReadNumber(t, stack, rest);
    case Nil => ReadNumber(t, stack, rest);
    case Str(text) => ReadBulk(text, stack, rest);
    case Arr(items) => ReadArray(t, items, stack, rest);
  }

  lemma {:induction false} ReadArray(t: Reply, items: seq<Reply>, stack: Stack, rest: Bytes)
    requires Ready(stack) && Sendable(t) && t == Arr(items)
    ensures Parse(stack, Encode(t) + rest) == Expected(stack, t, rest)
    decreases t, 1, 0
  {
    EncodedArray(items, rest);
    var tail := EncodeAll(items) + rest;
    if |stack| == 9 {
      ArrayTooDeep(stack, Print(|items|) + CRLF + tail);
    } else if items == [] {
      ReadEmpty(stack, rest);
    } else {
      HeaderRead(stack, items, tail);
      assert items[0..] == items;
      ReadItems(t, items, 0, stack, rest);
    }
  }

  lemma {:induction false} ArrayTooDeep(stack: Stack, body: Bytes)
    requires Ready(stack) && |stack| == 9
    ensures Parse(stack, [42] + body) == ([], Failed(TooDeep))
  {
    assert ([42] + body)[1..] == body;
    assert Step(stack, [42] + body) == Fail(TooDeep);
  }

  lemma {:induction false} ReadEmpty(stack: Stack, rest: Bytes)
    requires Ready(stack) && |stack| < 9
    ensures Parse(stack, Encode(Arr([])) + rest) == After(stack, Arr([]), rest)
  {
    NumberLine(0, rest);
    assert Encode(Arr([]))[1..] + rest == Print(0) + CRLF + rest;
    ItemRead(stack, KArray, Encode(Arr([])), Arr([]), rest);
  }

  lemma ItemsSplit(items: seq<Reply>, i: int, rest: Bytes)
    requires 0 <= i < |items|
    ensures var tail := EncodeAll(items[i + 1..]) + rest;
            && EncodeAll(items[i..]) + rest == Encode(items[i]) + tail
            && |Encode(items[i])| + |tail| == |EncodeAll(items[i..])| + |rest|
  {
    assert items[i..][0] == items[i] && items[i..][1..] == items[i + 1..];
  }

  lemma {:induction false} ReadItems(t: Reply, items: seq<Reply>, i: int, stack: Stack, rest: Bytes)
    requires t == Arr(items) && Sendable(t) && Ready(stack) && |stack| < 9 && 0 <= i < |items|
    requires |stack| + 1 + DepthAll(items) <= 9 || |stack| + 1 + DepthAll(items[i..]) > 9
    ensures Ready(Inside(stack, items, i))
    ensures Parse(Inside(stack, items, i), EncodeAll(items[i..]) + rest) == Expected(stack, t, rest)
    decreases t, 0, |items| - i
  {
    InsideOk(stack, items, i);
    var tail := EncodeAll(items[i + 1..]) + rest;
    ItemsSplit(items, i, rest);
    DepthFrom(items, i);
    ReadTree(items[i], Inside(stack, items, i), tail);
    if |stack| + 1 + Depth(items[i]) <= 9 {
      ElementDone(stack, items, i, tail);
      if i + 1 < |items| {
        ReadItems(t, items, i + 1, stack, rest);
      } else {
        assert tail == rest;
      }
    }
  }

  lemma {:induction false} DepthFrom(items: seq<Reply>, i: int)
    requires 0 <= i < |items|
    ensures Depth(items[i]) <= DepthAll(items) && DepthAll(items[i..]) <= DepthAll(items)
    ensures DepthAll(items[i..]) == Max(Depth(items[i]), DepthAll(items[i + 1..]))
    decreases |items|
  {
    assert items[i..][0] == items[i] && items[i..][1..] == items[i + 1..];
    if i > 0 {
      DepthFrom(items[1..], i - 1);
      assert items[1..][i - 1..] == items[i..];
    } else {
      assert items[0..] == items;
    }
  }

  // ---- whole streams ----

  lemma {:induction false} ReadRoot(t: Reply, rest: Bytes)
    requires Sendable(t) && Depth(t) <= 8
    ensures Parse([ROOT], Encode(t) + rest) == ([t] + Parse([ROOT], rest).0, Parse([ROOT], rest).1)
  {
    ReadTree(t, [ROOT], rest);
    assert Finish([ROOT], t) == ([], [t]);
  }

  /** A stream of replies of at most eight nested arrays each is read back reply for reply, and the
      reader is as new. */
  lemma {:induction false} StreamRead(ts: seq<Reply>, rest: Bytes)
    requires (forall i :: 0 <= i < |ts| ==> Sendable(ts[i]) && Depth(ts[i]) <= 8)
    ensures Parse([ROOT], EncodeAll(ts) + rest) == (ts + Parse([ROOT], rest).0, Parse([ROOT], rest).1)
    decreases |ts|
  {
    if ts == [] {
      assert EncodeAll(ts) + rest == rest;
      assert ts + Parse([ROOT], rest).0 == Parse([ROOT], rest).0;
    } else {
      Assoc(Encode(ts[0]), EncodeAll(ts[1..]), rest);
      ReadRoot(ts[0], EncodeAll(ts[1..]) + rest);
      StreamRead(ts[1..], rest);
      Assoc([ts[0]], ts[1..], Parse([ROOT], rest).0);
      assert [ts[0]] + ts[1..] == ts;
    }
  }
}
