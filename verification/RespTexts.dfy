/** What the reader makes of the texts that no reply is written as: the second form of a missing reply,
    lengths and numbers that are none, unknown types, and replies that are not all there. */
module RespTexts {
  import opened U32
  import opened Options
  import opened Decimal
  import opened Resp
  import opened RespRoundTrip
  import opened RespBuffer
  import opened Seqs

  /** The text of no 64-bit number. */
  ghost predicate NoNumber(line: Bytes)
  {
    forall v :: I64_MIN <= v <= I64_MAX ==> line != Print(v)
  }

  lemma NotParsed(line: Bytes)
    requires NoNumber(line)
    ensures ParseLL(line) == None
  {
    if ParseLL(line).Some? { ParseExact(line, ParseLL(line).value); }
  }

  /** A type byte, a line and what follows it. */
  function Line(b: byte, line: Bytes, rest: Bytes): Bytes { [b] + (line + CRLF + rest) }

  lemma LineStep(stack: Stack, b: byte, line: Bytes, rest: Bytes, k: Kind)
    requires Ready(stack) && KindOf(b) == Some(k)
    ensures Step(stack, Line(b, line, rest)) == Typed(WithKind(stack, k), line + CRLF + rest)
  {
    var s := Line(b, line, rest);
    assert s[0] == b && s[1..] == line + CRLF + rest;
  }

  lemma {:induction false} Failing(stack: Stack, s: Bytes, e: Problem)
    requires StackOk(stack) && Step(stack, s) == Fail(e)
    ensures Parse(stack, s) == ([], Failed(e))
  {
  }

  lemma {:induction false} Waits(stack: Stack, s: Bytes, stack': Stack, rest: Bytes)
    requires StackOk(stack) && Step(stack, s) == Stuck(stack', rest)
    ensures Parse(stack, s) == ([], Waiting(stack', rest))
  {
  }

  /** "*-1" is a missing reply, like "$-1". */
  lemma {:induction false} NilArray(stack: Stack, rest: Bytes)
    requires Ready(stack) && |stack| < 9
    ensures Parse(stack, Line(42, Print(-1), rest)) == After(stack, Nil, rest)
  {
    var body := [42] + Print(-1) + CRLF;
    NumberLine(-1, rest);
    assert body + rest == Line(42, Print(-1), rest) && body[1..] + rest == Print(-1) + CRLF + rest;
    ItemRead(stack, KArray, body, Nil, rest);
  }

  /** Concretely: the five bytes of a missing array, fed to a new reader. */
  lemma NilArrayRead()
    ensures FeedOnce(NEW_READER, [42, 45, 49, 13, 10]).0 == [Nil]
  {
    var s: Bytes := [42, 45, 49, 13, 10];
    assert Print(-1) == [45, 49];
    assert Line(42, Print(-1), []) == s;
    NilArray([ROOT], []);
    assert Finish([ROOT], Nil) == ([], [Nil]);
    assert Parse([ROOT], []) == ([], NEW);
    FeedIs(NEW_READER, s);
    assert [] + s == s;
  }

  /** The length of an array: no number, or one out of range. */
  lemma {:induction false} ArrayRefused(stack: Stack, line: Bytes, rest: Bytes)
    requires Ready(stack) && |stack| < 9 && FindCrlf(line) < 0
    ensures NoNumber(line) ==> Parse(stack, Line(42, line, rest)) == ([], Failed(BadMultiLength))
    ensures forall v :: I64_MIN <= v <= I64_MAX && line == Print(v) && (v < -1 || v > INT_MAX) ==>
              Parse(stack, Line(42, line, rest)) == ([], Failed(MultiRange))
  {
    TextLine(line, rest);
    LineStep(stack, 42, line, rest, KArray);
    if NoNumber(line) {
      NotParsed(line);
      Failing(stack, Line(42, line, rest), BadMultiLength);
    }
    forall v | I64_MIN <= v <= I64_MAX && line == Print(v) && (v < -1 || v > INT_MAX)
      ensures Parse(stack, Line(42, line, rest)) == ([], Failed(MultiRange))
    {
      ParseExact(line, v);
      Failing(stack, Line(42, line, rest), MultiRange);
    }
  }

  /** An array below eight others is refused before its length is looked at. */
  lemma {:induction false} ArrayRefusedDeep(stack: Stack, s: Bytes)
    requires Ready(stack) && |stack| == 9
    ensures Parse(stack, [42] + s) == ([], Failed(TooDeep))
  {
    ArrayTooDeep(stack, s);
  }

  /** The length of a bulk string: no number, or below -1. */
  lemma {:induction false} BulkRefused(stack: Stack, line: Bytes, rest: Bytes)
    requires Ready(stack) && FindCrlf(line) < 0
    ensures NoNumber(line) ==> Parse(stack, Line(36, line, rest)) == ([], Failed(BadBulkLength))
    ensures forall v :: I64_MIN <= v < -1 && line == Print(v) ==>
              Parse(stack, Line(36, line, rest)) == ([], Failed(BulkRange))
  {
    TextLine(line, rest);
    LineStep(stack, 36, line, rest, KString);
    if NoNumber(line) {
      NotParsed(line);
      Failing(stack, Line(36, line, rest), BadBulkLength);
    }
    forall v | I64_MIN <= v < -1 && line == Print(v)
      ensures Parse(stack, Line(36, line, rest)) == ([], Failed(BulkRange))
    {
      ParseExact(line, v);
      Failing(stack, Line(36, line, rest), BulkRange);
    }
  }

  /** A bulk string whose bytes are not all there waits for them; its length line is read again then. */
  lemma {:induction false} BulkWaits(stack: Stack, n: nat, part: Bytes)
    requires Ready(stack) && |part| < n + 2 && n <= I64_MAX
    ensures Parse(stack, Line(36, Print(n), part)) == ([], Waiting(WithKind(stack, KString), Print(n) + CRLF + part))
  {
    NumberText(n);
    TextLine(Print(n), part);
    LineStep(stack, 36, Print(n), part, KString);
    Waits(stack, Line(36, Print(n), part), WithKind(stack, KString), Print(n) + CRLF + part);
  }

  /** The two bytes that end a bulk string may be any. */
  lemma {:induction false} BulkUnread(stack: Stack, text: Bytes, two: Bytes, rest: Bytes)
    requires Ready(stack) && |text| <= I64_MAX && |two| == 2
    ensures Parse(stack, Line(36, Print(|text|), text + two + rest)) == After(stack, Str(text), rest)
  {
    var body := [36] + (Print(|text|) + CRLF + (text + two));
    BulkRead(text, two, WithKind(stack, KString), rest);
    Assoc(Print(|text|) + CRLF, text + two, rest);
    Assoc([36], Print(|text|) + CRLF + (text + two), rest);
    assert body[1..] == Print(|text|) + CRLF + (text + two);
    ItemRead(stack, KString, body, Str(text), rest);
  }

  /** A number that is none. */
  lemma {:induction false} NumberRefused(stack: Stack, line: Bytes, rest: Bytes)
    requires Ready(stack) && FindCrlf(line) < 0 && NoNumber(line)
    ensures Parse(stack, Line(58, line, rest)) == ([], Failed(BadInteger))
  {
    TextLine(line, rest);
    NotParsed(line);
    LineStep(stack, 58, line, rest, KInteger);
    Failing(stack, Line(58, line, rest), BadInteger);
  }

  /** Any byte but the five that announce a reply. */
  lemma {:induction false} TypeRefused(stack: Stack, s: Bytes)
    requires Ready(stack) && s != [] && s[0] !in {36, 42, 43, 45, 58}
    ensures Parse(stack, s) == ([], Failed(BadType(s[0])))
  {
    Failing(stack, s, BadType(s[0]));
  }

  /** Without the end of its line a reply waits, and nothing but its type is read. */
  lemma {:induction false} LineWaits(stack: Stack, b: byte, line: Bytes)
    requires Ready(stack) && b in {36, 42, 43, 45, 58} && (b == 42 ==> |stack| < 9) && FindCrlf(line) < 0
    ensures Parse(stack, [b] + line) == ([], Waiting(WithKind(stack, KindOf(b).value), line))
  {
    var s := [b] + line;
    assert s[0] == b && s[1..] == line;
    Waits(stack, s, WithKind(stack, KindOf(b).value), line);
  }

  /** The letters of the protocol, on a status, an error, a number, a string, nothing and an array. */
  lemma Letters()
    ensures Encode(Status([79, 75])) == [43, 79, 75, 13, 10]
    ensures Encode(Error([78, 79])) == [45, 78, 79, 13, 10]
    ensures Encode(Int(-7)) == [58, 45, 55, 13, 10]
    ensures Encode(Str([71, 69, 84])) == [36, 51, 13, 10, 71, 69, 84, 13, 10]
    ensures Encode(Nil) == [36, 45, 49, 13, 10]
    ensures Encode(Arr([Nil])) == [42, 49, 13, 10, 36, 45, 49, 13, 10]
  {
    assert Print(1) == [49] && Print(3) == [51] && Print(-7) == [45, 55] && Print(-1) == [45, 49];
    assert EncodeAll([Nil]) == Encode(Nil) + EncodeAll([]) == Encode(Nil);
  }
}
