/** redisReader: the buffer, the cursor into it and its stack of tasks, updated in place. */
module RespReader {
  import opened U32
  import opened Options
  import opened Decimal
  import opened Resp
  import opened RespBuffer

  /** Where the first CR LF at or after a place is, or -1. */
  function CrlfFrom(t: Bytes, pos: nat): int
    requires pos <= |t|
  {
    if FindCrlf(t[pos..]) < 0 then -1 else pos + FindCrlf(t[pos..])
  }

  lemma NotHere(t: Bytes, pos: nat)
    requires pos < |t| && !(pos + 1 < |t| && t[pos] == 13 && t[pos + 1] == 10)
    ensures CrlfFrom(t, pos) == CrlfFrom(t, pos + 1)
  {
    assert t[pos..][1..] == t[pos + 1..];
  }

  /** seekNewline as the code scans, with its int for the last place. */
  method SeekNewline(s: Bytes) returns (n: int)
    ensures n == Seek(s, C32)
  {
    var pos, last := 0, Signed(|s| - 1);
    ghost var seen := s[..Seen(|s|)];
    assert seen[0..] == seen;
    while pos < last
      invariant 0 <= pos <= |seen| == Max(0, last + 1)
      invariant CrlfFrom(seen, pos) == Seek(s, C32)
    {
      while pos < last && s[pos] != 13
        invariant 0 <= pos <= last && |seen| == last + 1
        invariant CrlfFrom(seen, pos) == Seek(s, C32)
      {
        NotHere(seen, pos);
        pos := pos + 1;
      }
      if pos == last {
        return -1;
      } else if s[pos + 1] == 10 {
        return pos;
      } else {
        NotHere(seen, pos);
        pos := pos + 1;
      }
    }
    n := -1;
  }

  /** sdsrange, whose indices and length are ints. */
  method SdsRange(s: Bytes, start0: int, end0: int) returns (r: Bytes)
    requires -HALF <= start0 < HALF && -HALF <= end0 < 0
    ensures r == Range(s, start0, end0)
  {
    if |s| == 0 {
      return s;
    }
    var start, end := start0, end0;
    if start < 0 {
      start := Signed(|s| + start);
      if start < 0 {
        start := 0;
      }
    }
    if end < 0 {
      end := Signed(|s| + end);
      if end < 0 {
        end := 0;
      }
    }
    assert start == Clamp(start0, |s|) && end == Clamp(end0, |s|);
    r := SdsCut(s, start, end);
  }

  /** Its second half. */
  method SdsCut(s: Bytes, start0: nat, end0: nat) returns (r: Bytes)
    ensures r == Between(s, start0, end0)
  {
    var start, end, len := start0, end0, Signed(|s|);
    var newlen := if start > end then 0 else end - start + 1;
    if newlen != 0 {
      if start >= len {
        newlen := 0;
      } else if end >= len {
        end := Signed(|s| - 1);
        newlen := if start > end then 0 else end - start + 1;
      }
    } else {
      start := 0;
    }
    r := if newlen == 0 then [] else s[start..start + newlen];
  }

  /** What readLine returns; len + 2, an int, may run over. */
  datatype Line = NoLine | Line(text: Bytes) | Undefined

  class RedisReader {
    var err: Option<Problem>
    var buf: Bytes
    var pos: nat
    const rstack: array<Task>
    var ridx: int
    var reply: Option<Reply>

    ghost predicate Sane()
      reads this, rstack
    {
      rstack.Length == 9 && -1 <= ridx <= 8 && pos <= |buf|
    }

    /** Bytes fed and not read. */
    ghost function Unread(): Bytes
      reads this, rstack
      requires Sane()
    {
      buf[pos..]
    }

    ghost function Tasks(): Stack
      reads this, rstack
      requires Sane()
    {
      rstack[..ridx + 1]
    }

    /** Between calls. */
    ghost predicate Valid()
      reads this, rstack
    {
      && Sane() && reply == None
      && (err.Some? ==> ridx == -1 && buf == [])
      && (ridx >= 0 ==> StackOk(Tasks()))
    }

    /** The reader as the machine sees it; an empty stack stands for the start of a reply. */
    ghost function State(): (h: Held)
      reads this, rstack
      requires Valid()
      ensures HeldOk(h)
    {
      if err.Some? then Broken(err.value) else Held(if ridx == -1 then [ROOT] else Tasks(), buf, pos)
    }

    /** redisReaderCreateWithFunctions */
    constructor ()
      ensures Valid() && State() == NEW_READER && fresh(rstack)
    {
      err, buf, pos, ridx, reply := None, [], 0, -1, None;
      rstack := new Task[9](_ => ROOT);
    }

    /** What an item left behind. */
    ghost predicate Became(o: Outcome, ok: bool)
      reads this, rstack
    {
      && Sane()
      && match o
         case Stuck(s, r) => !ok && err == None && reply == None && Tasks() == s && Unread() == r
         case Done(s, r, out) => ok && err == None && Tasks() == s && Unread() == r
                                 && reply == (if out == [] then None else Some(out[0]))
         case Fail(e) => !ok && err == Some(e) && ridx == -1 && buf == [] && reply == None
    }

    method SetError(e: Problem)
      requires Sane()
      modifies this
      ensures Became(Fail(e), false)
    {
      reply := None;
      buf := [];
      pos := 0;
      ridx := -1;
      err := Some(e);
    }

    /** readLine */
    method ReadLine() returns (line: Line)
      requires Sane()
      modifies this`pos
      ensures Sane()
      ensures var n := Seek(old(Unread()), C32);
              if n < 0 then line == NoLine && pos == old(pos)
              else if RunsOver(n, C32) then line == Undefined
              else line == Line(old(Unread())[..n]) && Unread() == old(Unread())[n + 2..]
    {
      var n := SeekNewline(buf[pos..]);
      if n < 0 {
        return NoLine;
      }
      if n + 2 > INT_MAX {
        return Undefined;
      }
      line := Line(buf[pos..pos + n]);
      assert buf[pos..pos + n] == buf[pos..][..n] && buf[pos + n + 2..] == buf[pos..][n + 2..];
      pos := pos + n + 2;
    }

    /** moveToNextTask. In the code the value hangs in the array above it from the moment it is
        created; here an array is completed when the stack drops below it. */
    method MoveToNextTask(v: Reply)
      requires Sane() && ridx >= 0 && reply == None && Shaped(Tasks())
      modifies this`ridx, this`reply, rstack
      ensures Sane()
      ensures Tasks() == Finish(old(Tasks()), v).0
      ensures reply == if Finish(old(Tasks()), v).1 == [] then None else Some(Finish(old(Tasks()), v).1[0])
    {
      var obj := v;
      while ridx >= 0
        invariant Sane() && ridx >= 0 && reply == None
        invariant forall i :: 0 <= i < ridx ==> Open(rstack[i], rstack[i + 1].idx)
        invariant Finish(Tasks(), obj) == Finish(old(Tasks()), v)
        decreases ridx
      {
        if ridx == 0 {
          ridx := -1;
          reply := Some(obj);
          return;
        }
        ghost var before := Tasks();
        var cur, prv := rstack[ridx], rstack[ridx - 1];
        var items := prv.items + [obj];
        if cur.idx == prv.elements - 1 {
          ridx := ridx - 1;
          assert Tasks() == before[..ridx + 1];
          obj := Arr(items);
        } else {
          rstack[ridx - 1] := prv.(items := items);
          rstack[ridx] := Fresh(cur.idx + 1);
          assert Tasks() == before[..ridx - 1] + [prv.(items := items), Fresh(cur.idx + 1)];
          return;
        }
      }
    }

    method ProcessLineItem() returns (ok: bool)
      requires Sane() && ridx >= 0 && err == None && reply == None && Shaped(Tasks())
      modifies this, rstack
      ensures Became(LineItem(old(Tasks()), old(Unread()), C32), ok)
      ensures err == None ==> buf == old(buf)
    {
      var kind := rstack[ridx].kind;
      var line := ReadLine();
      if line.NoLine? {
        return false;
      }
      if line.Undefined? {
        SetError(Overflow);
        return false;
      }
      var obj;
      if kind == Some(KInteger) {
        var v := String2LL(line.text);
        if v.None? {
          SetError(BadInteger);
          return false;
        }
        obj := Int(v.value);
      } else {
        obj := if kind == Some(KError) then Error(line.text) else Status(line.text);
      }
      MoveToNextTask(obj);
      ok := true;
    }

    method ProcessBulkItem() returns (ok: bool)
      requires Sane() && ridx >= 0 && err == None && reply == None && Shaped(Tasks())
      modifies this, rstack
      ensures Became(BulkItem(old(Tasks()), old(Unread()), C32), ok)
      ensures err == None ==> buf == old(buf)
    {
      var n := SeekNewline(buf[pos..]);
      if n < 0 {
        return false;
      }
      var bytelen := n + 2;
      assert buf[pos..pos + n] == Unread()[..n];
      var len := String2LL(buf[pos..pos + n]);
      if len.None? {
        SetError(BadBulkLength);
        return false;
      }
      if len.value < -1 {
        SetError(BulkRange);
        return false;
      }
      if len.value == -1 {
        TakeItem(bytelen, Nil);
        return true;
      }
      bytelen := bytelen + len.value + 2;
      if pos + bytelen > |buf| {
        return false;
      }
      ghost var rest := Unread();
      assert buf[pos + n + 2..pos + n + 2 + len.value] == rest[n + 2..n + 2 + len.value];
      TakeItem(bytelen, Str(buf[pos + n + 2..pos + n + 2 + len.value]));
      ok := true;
    }

    /** The cursor moves past the item and the item takes its place. */
    method TakeItem(bytelen: nat, obj: Reply)
      requires Sane() && ridx >= 0 && err == None && reply == None && Shaped(Tasks()) && bytelen <= |Unread()|
      modifies this`pos, this`ridx, this`reply, rstack
      ensures Became(Placed(old(Tasks()), obj, old(Unread())[bytelen..]), true)
    {
      assert buf[pos + bytelen..] == Unread()[bytelen..];
      FinishOk(Tasks(), obj);
      pos := pos + bytelen;
      MoveToNextTask(obj);
    }

    /** The stack grows by a task for the array's first element. */
    method Push(elements: int)
      requires Sane() && 0 <= ridx < 8 && Shaped(Tasks())
      modifies this`ridx, rstack
      ensures Sane() && Tasks() == SetTop(old(Tasks()), Top(old(Tasks())).(elements := elements)) + [Fresh(0)]
    {
      rstack[ridx] := rstack[ridx].(elements := elements);
      ridx := ridx + 1;
      rstack[ridx] := Fresh(0);
    }

    method ProcessMultiBulkItem() returns (ok: bool)
      requires Sane() && ridx >= 0 && err == None && reply == None && Shaped(Tasks())
      modifies this, rstack
      ensures Became(MultiItem(old(Tasks()), old(Unread()), C32), ok)
      ensures err == None ==> buf == old(buf)
    {
      if ridx == 8 {
        SetError(TooDeep);
        return false;
      }
      var line := ReadLine();
      if line.NoLine? {
        return false;
      }
      if line.Undefined? {
        SetError(Overflow);
        return false;
      }
      var elements := String2LL(line.text);
      if elements.None? {
        SetError(BadMultiLength);
        return false;
      }
      if elements.value < -1 || elements.value > INT_MAX {
        SetError(MultiRange);
        return false;
      }
      if elements.value == -1 {
        MoveToNextTask(Nil);
      } else if elements.value > 0 {
        Push(elements.value);
      } else {
        MoveToNextTask(Arr([]));
      }
      ok := true;
    }

    method ProcessTyped() returns (ok: bool)
      requires Sane() && ridx >= 0 && err == None && reply == None && Shaped(Tasks()) && Top(Tasks()).kind.Some?
      modifies this, rstack
      ensures Became(Typed(old(Tasks()), old(Unread()), C32), ok)
      ensures err == None ==> buf == old(buf)
    {
      match rstack[ridx].kind.value
      case KString => ok := ProcessBulkItem();
      case KArray => ok := ProcessMultiBulkItem();
      case _ => ok := ProcessLineItem();
    }

    /** The type byte; ok tells that it is there and known. */
    method ReadType() returns (ok: bool)
      requires Sane() && ridx >= 0 && err == None && reply == None && Shaped(Tasks())
      modifies this, rstack
      ensures ok <==> old(Unread()) != [] && KindOf(old(Unread())[0]).Some?
      ensures ok ==> Sane() && ridx == old(ridx) && err == None && reply == None
                     && Tasks() == WithKind(old(Tasks()), KindOf(old(Unread())[0]).value)
                     && Unread() == old(Unread())[1..]
      ensures !ok && old(Unread()) == [] ==>
                Sane() && err == None && reply == None && Tasks() == old(Tasks()) && Unread() == []
      ensures err == None ==> buf == old(buf)
      ensures !ok && old(Unread()) != [] ==> Became(Fail(BadType(old(Unread())[0])), false)
    {
      if pos == |buf| {
        return false;
      }
      var b := buf[pos];
      assert b == Unread()[0] && buf[pos + 1..] == Unread()[1..];
      pos := pos + 1;
      var kind := KindOf(b);
      if kind == None {
        SetError(BadType(b));
        return false;
      }
      rstack[ridx] := rstack[ridx].(kind := kind);
      assert Tasks() == WithKind(old(Tasks()), kind.value);
      ok := true;
    }

    method ProcessItem() returns (ok: bool)
      requires Sane() && ridx >= 0 && err == None && reply == None && StackOk(Tasks())
      modifies this, rstack
      ensures Became(Step(old(Tasks()), old(Unread()), C32), ok)
      ensures err == None ==> buf == old(buf)
    {
      ghost var s, r := Tasks(), Unread();
      if rstack[ridx].kind == None {
        ok := ReadType();
        if !ok {
          return;
        }
        TypeRead(s, r, KindOf(r[0]).value, C32);
      }
      ok := ProcessTyped();
    }

    /** redisReaderFeed */
    method Feed(bytes: Bytes) returns (ok: bool)
      requires Valid()
      modifies this
      ensures Valid() && (ok <==> err == None) && err == old(err) && State() == Appended(old(State()), bytes)
    {
      if err.Some? {
        return false;
      }
      if |bytes| >= 1 {
        buf := buf + bytes;
      } else {
        assert buf + bytes == buf;
      }
      ok := true;
    }

    /** What the items came to. */
    ghost predicate Processed(g: Got)
      reads this, rstack
    {
      && Sane()
      && match g
         case Got(v, rest) => err == None && ridx == -1 && reply == Some(v) && Unread() == rest
         case Pending(s, rest) =>
           err == None && ridx >= 0 && reply == None && Tasks() == s && StackOk(s) && Unread() == rest
         case Bad(e) => err == Some(e) && ridx == -1 && buf == [] && reply == None
    }

    /** The loop of redisReaderGetReply. */
    method ProcessItems()
      requires Sane() && ridx >= 0 && err == None && reply == None && StackOk(Tasks())
      modifies this, rstack
      ensures (err == None ==> buf == old(buf)) && Processed(GetOne(old(Tasks()), old(Unread()), C32))
    {
      ghost var s, r := Tasks(), Unread();
      StepOk(s, r, C32);
      var go := ProcessItem();
      while ridx >= 0 && go
        invariant Sane() && (err == None ==> buf == old(buf))
        invariant StackOk(s) && OutcomeOk(Step(s, r, C32), r) && Became(Step(s, r, C32), go)
        invariant GetOne(s, r, C32) == GetOne(old(Tasks()), old(Unread()), C32)
        decreases |r|
      {
        s, r := Tasks(), Unread();
        StepOk(s, r, C32);
        go := ProcessItem();
      }
    }

    /** redisReaderGetReply */
    method GetReply() returns (ok: bool, r: Option<Reply>)
      requires Valid()
      modifies this, rstack
      ensures Valid() && (ok <==> err == None) && (r, State()) == Next(old(State()))
    {
      r := None;
      if err.Some? {
        return false, None;
      }
      if |buf| == 0 {
        return true, None;
      }
      NextIs(State());
      Begin();
      ghost var g := GetOne(Tasks(), Unread(), C32);
      ProcessItems();
      ok, r := Close(g);
    }

    /** Its end. */
    method Close(ghost g: Got) returns (ok: bool, r: Option<Reply>)
      requires Processed(g) && LeftOf(g, buf)
      modifies this
      ensures Valid() && (ok <==> err == None) && (r, State()) == Closed(g, old(buf))
    {
      if err.Some? {
        return false, None;
      }
      Trim();
      r := Emit();
      ok := true;
    }

    /** The first task is set up when the stack is empty. */
    method Begin()
      requires Valid() && err == None
      modifies this`ridx, rstack
      ensures Sane() && ridx >= 0 && Tasks() == old(State()).stack && Unread() == old(Unread()) && StackOk(Tasks())
    {
      if ridx == -1 {
        rstack[0] := ROOT;
        ridx := 0;
        assert Tasks() == [ROOT];
      }
    }

    /** A complete reply is handed over. */
    method Emit() returns (r: Option<Reply>)
      requires Sane() && err == None && (reply == None ==> ridx >= 0 && StackOk(Tasks()))
               && (reply.Some? ==> ridx == -1)
      modifies this`reply
      ensures Valid() && r == old(reply) && err == None
      ensures State() == Held(if r.Some? then [ROOT] else Tasks(), buf, pos)
    {
      r := None;
      if ridx == -1 {
        r := reply;
        reply := None;
      }
    }

    /** Drop what was read once it is at least 1k. */
    method Trim()
      requires Sane()
      modifies this`buf, this`pos
      ensures Sane() && (buf, pos) == Trimmed(old(buf), old(pos))
    {
      if pos >= 1024 {
        buf := SdsRange(buf, Signed(pos), -1);
        pos := 0;
      }
    }
  }
}
