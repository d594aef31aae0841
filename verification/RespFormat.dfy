/** redisFormatCommandArgv and redisFormatSdsCommandArgv: a command is written as an array of bulk
    strings, into a buffer whose size was computed before, in an int. */
module RespFormat {
  import opened Bits
  import opened U32
  import opened Options
  import opened Decimal
  import opened Resp
  import opened RespBuffer
  import opened RespLimits
  import opened RespRoundTrip
  import opened Seqs

  function Bulks(args: seq<Bytes>): (r: seq<Reply>)
    ensures |r| == |args| && forall i :: 0 <= i < |args| ==> r[i] == Str(args[i])
  {
    seq(|args|, i requires 0 <= i < |args| => Str(args[i]))
  }

  /** The command as a reply tree, and as bytes. */
  function Command(args: seq<Bytes>): Reply { Arr(Bulks(args)) }

  function Form(args: seq<Bytes>): Bytes { Encode(Command(args)) }

  /** What the C types hold: the number of arguments an int, their lengths and the command's own a
      size_t. */
  predicate Representable(args: seq<Bytes>)
  {
    |args| <= INT_MAX && |Form(args)| <= U64_MAX && forall i :: 0 <= i < |args| ==> |args[i]| <= U64_MAX
  }

  /** bulklen */
  method BulkLen(len: nat) returns (n: nat)
    requires len <= U64_MAX
    ensures forall text: Bytes :: |text| == len ==> n == |Encode(Str(text))|
  {
    var digits := CountDigits(len);
    n := 1 + digits + 2 + len + 2;
  }

  lemma BulksFrom(args: seq<Bytes>, j: nat)
    requires j < |args|
    ensures EncodeAll(Bulks(args)[j..]) == Encode(Str(args[j])) + EncodeAll(Bulks(args)[j + 1..])
  {
    assert Bulks(args)[j..][0] == Str(args[j]) && Bulks(args)[j..][1..] == Bulks(args)[j + 1..];
  }

  /** int totlen; each length is added as a size_t and the sum cut to an int again. */
  method TotalLen(args: seq<Bytes>) returns (totlen: int)
    requires Representable(args)
    ensures totlen == Signed(|Form(args)|)
  {
    var digits := CountDigits(|args|);
    totlen := Signed(1 + digits + 2);
    ghost var sum := 1 + digits + 2;
    var j := 0;
    while j < |args|
      invariant 0 <= j <= |args| && totlen == Signed(sum)
      invariant sum + |EncodeAll(Bulks(args)[j..])| == |Form(args)|
    {
      BulksFrom(args, j);
      var len := BulkLen(|args[j]|);
      SignedSum(sum, len);
      totlen := Signed(totlen + len);
      sum := sum + len;
      j := j + 1;
    }
  }

  /** Cutting a sum now or later is the same. */
  lemma SignedSum(a: int, b: int)
    ensures Signed(Signed(a) + b) == Signed(a + b)
  {
    SameMod(a, Signed(a), b);
  }

  lemma SameMod(a: int, r: int, b: int)
    requires a % M == r % M
    ensures (a + b) % M == (r + b) % M
  {
    var k := (r + b) / M;
    var q := a / M - r / M;
    assert a - r == M * q;
    ModIs(a + b, M, k + q, (r + b) % M);
  }

  /** unsigned long long totlen */
  method TotalLong(args: seq<Bytes>) returns (totlen: nat)
    requires Representable(args)
    ensures totlen == |Form(args)|
  {
    var digits := CountDigits(|args|);
    totlen := 1 + digits + 2;
    var j := 0;
    while j < |args|
      invariant 0 <= j <= |args|
      invariant totlen + |EncodeAll(Bulks(args)[j..])| == |Form(args)|
    {
      BulksFrom(args, j);
      var len := BulkLen(|args[j]|);
      totlen := totlen + len;
      j := j + 1;
    }
  }

  /** Store bytes at a position of the buffer, as sprintf and memcpy do; not ok if they do not fit. */
  method Put(cmd: array<byte>, pos: nat, bytes: Bytes) returns (ok: bool, next: nat)
    requires pos <= cmd.Length
    modifies cmd
    ensures ok <==> pos + |bytes| <= cmd.Length
    ensures ok ==> next == pos + |bytes| && cmd[..next] == old(cmd[..pos]) + bytes
  {
    if pos + |bytes| > cmd.Length {
      return false, pos;
    }
    forall i | 0 <= i < |bytes| {
      cmd[pos + i] := bytes[i];
    }
    next := pos + |bytes|;
    ok := true;
    assert forall i :: 0 <= i < pos ==> cmd[i] == old(cmd[i]);
  }

  /** The body of the formatter's loop. */
  method PutBulk(cmd: array<byte>, pos0: nat, arg: Bytes) returns (ok: bool, pos: nat)
    requires pos0 <= cmd.Length
    modifies cmd
    ensures ok <==> pos0 + |Encode(Str(arg))| <= cmd.Length
    ensures ok ==> pos == pos0 + |Encode(Str(arg))| && cmd[..pos] == old(cmd[..pos0]) + Encode(Str(arg))
  {
    ghost var before := cmd[..pos0];
    ok, pos := Put(cmd, pos0, [36] + Print(|arg|) + CRLF);
    if !ok {
      return;
    }
    ok, pos := Put(cmd, pos, arg);
    if !ok {
      return;
    }
    ok, pos := Put(cmd, pos, CRLF);
    assert ok ==> cmd[..pos] == before + Encode(Str(arg));
  }

  /** How a call ends: with the command; with malloc refusing a negative size; or writing past the end
      of a buffer whose size was cut too short. */
  datatype Ending = Formatted | NoMemory | Overrun

  /** redisFormatCommandArgv: a command shorter than the largest int fills the buffer exactly; no other
      command is formatted. */
  method FormatCommandArgv(args: seq<Bytes>) returns (end: Ending, ret: int, cmd: array<byte>)
    requires Representable(args)
    ensures end == Formatted <==> |Form(args)| < INT_MAX
    ensures end == NoMemory <==> Signed(|Form(args)| + 1) < 0
    ensures end == NoMemory ==> ret == -1
    ensures end == Formatted ==> fresh(cmd) && ret == |Form(args)| && cmd.Length == ret + 1
    ensures end == Formatted ==> cmd[..ret] == Form(args) && cmd[ret] == 0
  {
    ret := TotalLen(args);
    SignedSum(|Form(args)|, 1);
    var size := Signed(ret + 1);
    if size < 0 {
      cmd := new byte[0];
      return NoMemory, -1, cmd;
    }
    cmd := new byte[size](_ => 0);
    SizeTooShort(|Form(args)|);
    var ok := Fill(args, cmd);
    end := if ok then Formatted else Overrun;
  }

  /** The size asked for is the size needed, unless it was cut. */
  lemma SizeTooShort(total: nat)
    ensures Signed(total + 1) < 0 || Signed(total + 1) <= total || Signed(total + 1) == total + 1 <= INT_MAX
    ensures total < INT_MAX <==> Signed(total + 1) == total + 1
  {
  }

  lemma NextBulk(args: seq<Bytes>, j: nat, before: Bytes)
    requires j < |args|
    ensures before + EncodeAll(Bulks(args)[j..]) == before + Encode(Str(args[j])) + EncodeAll(Bulks(args)[j + 1..])
  {
    BulksFrom(args, j);
    Assoc(before, Encode(Str(args[j])), EncodeAll(Bulks(args)[j + 1..]));
  }

  /** Writing the command into the buffer, and the closing zero. */
  method Fill(args: seq<Bytes>, cmd: array<byte>) returns (ok: bool)
    requires Representable(args)
    modifies cmd
    ensures ok <==> |Form(args)| < cmd.Length
    ensures ok ==> cmd[..|Form(args)|] == Form(args) && cmd[|Form(args)|] == 0
  {
    ghost var whole := Form(args);
    ghost var head := [42] + Print(|args|) + CRLF;
    assert whole == head + EncodeAll(Bulks(args));
    var pos;
    ok, pos := Put(cmd, 0, [42] + Print(|args|) + CRLF);
    assert Bulks(args)[0..] == Bulks(args);
    var j := 0;
    while j < |args| && ok
      invariant 0 <= j <= |args|
      invariant ok ==> 0 <= pos <= cmd.Length && cmd[..pos] + EncodeAll(Bulks(args)[j..]) == whole
      invariant !ok ==> |whole| > cmd.Length
    {
      ghost var before := cmd[..pos];
      NextBulk(args, j, before);
      ok, pos := PutBulk(cmd, pos, args[j]);
      j := j + 1;
    }
    if ok {
      assert pos == |whole|;
      ok := pos < cmd.Length;
      if ok {
        cmd[pos] := 0;
      }
    }
  }

  // ---- the other formatter ----

  /** "%u" prints the low 32 bits of a length. */
  function SdsBulks(args: seq<Bytes>): Bytes
  {
    if args == [] then []
    else [36] + Print(Wrap(|args[0]|)) + CRLF + args[0] + CRLF + SdsBulks(args[1..])
  }

  function SdsForm(args: seq<Bytes>): Bytes { [42] + Print(|args|) + CRLF + SdsBulks(args) }

  /** The header of one argument. */
  function Header(arg: Bytes): Bytes { [36] + Print(Wrap(|arg|)) + CRLF }

  /** All that is written before the last argument's own bytes. */
  function BeforeLast(args: seq<Bytes>): int
  {
    if args == [] then 0 else |SdsForm(args)| - |args[|args| - 1]| - 2
  }

  /** sdscatfmt: its place in the string is an int, taken from the length; ok if every byte and the
      closing zero go to the end. */
  method CatFmt(s: Bytes, line: Bytes) returns (ok: bool, r: Bytes)
    ensures ok <==> |s| + |line| <= INT_MAX
    ensures ok ==> r == s + line
  {
    var i, j := Signed(|s|), 0;
    r := s;
    while j < |line|
      invariant 0 <= j <= |line| && r == s + line[..j] && i == Signed(|r|)
      invariant j > 0 ==> |s| + j - 1 <= INT_MAX
    {
      if i != |r| {
        return false, r;
      }
      r := r + [line[j]];
      i := Signed(i + 1);
      j := j + 1;
    }
    ok := i == |r|;
  }

  /** redisFormatSdsCommandArgv. Headers are placed if and only if all that comes before the last
      argument fits an int; then the command is written if the last argument's length fits an
      unsigned int, and not otherwise. held tells whether the closing assertion holds; the length is
      returned as an int. */
  method FormatSdsCommandArgv(args: seq<Bytes>) returns (placed: bool, held: bool, cmd: Bytes, ret: int)
    requires Representable(args)
    ensures placed <==> BeforeLast(args) <= INT_MAX
    ensures placed ==> cmd == SdsForm(args) && (held <==> Counted(args)) && ret == Signed(|Form(args)|)
    ensures placed && cmd == Form(args) <==> Writable(args)
  {
    SdsExact(args);
    HeldExact(args);
    held, ret := false, 0;
    var totlen := TotalLong(args);
    placed, cmd := CatFmt([], [42] + Print(|args|) + CRLF);
    FirstLine(args);
    var j := 0;
    while j < |args|
      invariant 0 <= j <= |args| && Placing(args, cmd, j)
    {
      placed, cmd := PlaceArgument(args, cmd, j);
      if !placed {
        return;
      }
      j := j + 1;
    }
    AllPlaced(args, cmd);
    placed := true;
    held := |cmd| == totlen;
    ret := Signed(totlen);
  }

  /** The command up to argument j, with every header placed. */
  ghost predicate Placing(args: seq<Bytes>, cmd: Bytes, j: nat)
    requires j <= |args|
  {
    cmd + SdsBulks(args[j..]) == SdsForm(args) && (j > 0 ==> |cmd| - |args[j - 1]| - 2 <= INT_MAX)
  }

  /** The body of the loop. */
  method PlaceArgument(args: seq<Bytes>, cmd0: Bytes, j: nat) returns (placed: bool, cmd: Bytes)
    requires j < |args| && Placing(args, cmd0, j)
    ensures placed ==> Placing(args, cmd, j + 1)
    ensures !placed ==> BeforeLast(args) > INT_MAX
  {
    HeaderWithin(args, j);
    placed, cmd := CatFmt(cmd0, [36] + Print(Wrap(|args[j]|)) + CRLF);
    if !placed {
      return;
    }
    cmd := cmd + args[j];
    cmd := cmd + CRLF;
    Appended(cmd0, Header(args[j]), args[j]);
    SdsStep(cmd0, args, j);
  }

  lemma AllPlaced(args: seq<Bytes>, cmd: Bytes)
    requires Placing(args, cmd, |args|)
    ensures cmd == SdsForm(args) && BeforeLast(args) <= INT_MAX
  {
    assert args[|args|..] == [] && cmd + [] == cmd;
  }

  lemma FirstLine(args: seq<Bytes>)
    requires |args| <= INT_MAX
    ensures var line := [42] + Print(|args|) + CRLF; |line| <= INT_MAX && Placing(args, [] + line, 0)
  {
    DigitsBound(|args|);
    assert args[0..] == args;
    assert [] + ([42] + Print(|args|) + CRLF) == [42] + Print(|args|) + CRLF;
  }

  /** Each header comes before the last argument's bytes. */
  lemma HeaderWithin(args: seq<Bytes>, j: nat)
    requires j < |args|
    ensures |SdsBulks(args[j..])| >= |Header(args[j])| + |args[|args| - 1]| + 2
    ensures j == |args| - 1 ==> |SdsBulks(args[j..])| == |Header(args[j])| + |args[j]| + 2
    decreases |args| - j
  {
    SdsStep([], args, j);
    assert [] + SdsBulks(args[j..]) == SdsBulks(args[j..]);
    if j < |args| - 1 {
      HeaderWithin(args, j + 1);
    } else {
      assert args[j + 1..] == [];
    }
  }

  lemma Appended(before: Bytes, line: Bytes, arg: Bytes)
    ensures before + line + arg + CRLF == before + (line + arg + CRLF)
  {
    Assoc(before, line, arg);
    Assoc(before, line + arg, CRLF);
  }

  lemma SdsStep(before: Bytes, args: seq<Bytes>, j: nat)
    requires j < |args|
    ensures before + SdsBulks(args[j..])
            == before + (Header(args[j]) + args[j] + CRLF) + SdsBulks(args[j + 1..])
  {
    assert args[j..][0] == args[j] && args[j..][1..] == args[j + 1..];
    Assoc(before, Header(args[j]) + args[j] + CRLF, SdsBulks(args[j + 1..]));
  }

  predicate AllShort(args: seq<Bytes>) { forall i :: 0 <= i < |args| ==> |args[i]| < M }

  /** All before the last argument fits an int, and the last argument's length an unsigned int. */
  predicate Writable(args: seq<Bytes>)
  {
    BeforeLast(args) <= INT_MAX && (args == [] || |args[|args| - 1]| < M)
  }

  /** What the formatter writes is the command exactly then: only the last argument may be long. */
  lemma SdsExact(args: seq<Bytes>)
    ensures BeforeLast(args) <= INT_MAX && SdsForm(args) == Form(args) <==> Writable(args)
  {
    ShortExact(args);
    if BeforeLast(args) <= INT_MAX {
      forall i | 0 <= i < |args| - 1
        ensures |args[i]| < M
      {
        EarlierWithin(args, i, 0);
        assert args[0..] == args;
      }
    }
  }

  lemma {:induction false} EarlierWithin(args: seq<Bytes>, i: nat, j: nat)
    requires j <= i < |args| - 1
    ensures |SdsBulks(args[j..])| >= |args[i]| + |args[|args| - 1]| + 2
    decreases i - j
  {
    SdsStep([], args, j);
    assert [] + SdsBulks(args[j..]) == SdsBulks(args[j..]);
    if j < i {
      EarlierWithin(args, i, j + 1);
    } else {
      HeaderWithin(args, j + 1);
    }
  }

  lemma ShortExact(args: seq<Bytes>)
    ensures SdsForm(args) == Form(args) <==> AllShort(args)
  {
    var head := [42] + Print(|args|) + CRLF;
    assert SdsForm(args) == head + SdsBulks(args) && Form(args) == head + EncodeAll(Bulks(args));
    SdsBulksExact(args);
    assert head + SdsBulks(args) == head + EncodeAll(Bulks(args)) ==> SdsBulks(args) == EncodeAll(Bulks(args)) by {
      assert (head + SdsBulks(args))[|head|..] == SdsBulks(args);
      assert (head + EncodeAll(Bulks(args)))[|head|..] == EncodeAll(Bulks(args));
    }
  }

  lemma {:induction false} SdsBulksExact(args: seq<Bytes>)
    ensures SdsBulks(args) == EncodeAll(Bulks(args)) <==> AllShort(args)
    decreases |args|
  {
    if args != [] {
      BulksFrom(args, 0);
      assert Bulks(args)[0..] == Bulks(args) && Bulks(args)[1..] == Bulks(args[1..]);
      SdsBulksExact(args[1..]);
      FirstBulk(args[0], SdsBulks(args[1..]), EncodeAll(Bulks(args[1..])));
      assert AllShort(args) <==> |args[0]| < M && AllShort(args[1..]) by {
        assert forall i :: 0 < i < |args| ==> args[i] == args[1..][i - 1];
      }
    }
  }

  /** The first bulk string is right if its length is, and then the rest decides. */
  lemma FirstBulk(arg: Bytes, more: Bytes, others: Bytes)
    ensures [36] + Print(Wrap(|arg|)) + CRLF + arg + CRLF + more == Encode(Str(arg)) + others
            <==> |arg| < M && more == others
  {
    var a, b := Print(Wrap(|arg|)), Print(|arg|);
    var x, y := [36] + a + CRLF + arg + CRLF, [36] + b + CRLF + arg + CRLF;
    if x + more == y + others {
      TailBulk(36, a, arg, more);
      TailBulk(36, b, arg, others);
      assert (x + more)[1..] == x[1..] + more && (y + others)[1..] == y[1..] + others;
      NumbersEnd(Wrap(|arg|), |arg|);
      NumberEnds(a, arg + CRLF + more, b, arg + CRLF + others);
      PrintInjective(Wrap(|arg|), |arg|);
      assert (x + more)[|x|..] == more && (y + others)[|y|..] == others;
    }
  }

  lemma NumbersEnd(v: nat, w: nat)
    ensures FindCrlf(Print(v)) < 0 && FindCrlf(Print(w)) < 0
  {
    DigitsCanonical(v);
    DigitsCanonical(w);
    NoCr(Print(v));
    NoCr(Print(w));
  }

  /** Lines are told apart by where they end. */
  lemma {:induction false} NumberEnds(a: Bytes, x: Bytes, b: Bytes, y: Bytes)
    requires a + CRLF + x == b + CRLF + y && FindCrlf(a) < 0 && FindCrlf(b) < 0
    ensures a == b
  {
    LineEnds(a, x);
    LineEnds(b, y);
    assert (a + CRLF + x)[..|a|] == a && (b + CRLF + y)[..|b|] == b;
  }

  // ---- the closing assertion ----

  function Pow10(k: nat): (p: nat)
    ensures p > 0
  {
    if k == 0 then 1 else 10 * Pow10(k - 1)
  }

  lemma {:induction false} DigitsSize(n: nat, k: nat)
    requires k >= 1
    ensures |Digits(n)| <= k <==> n < Pow10(k)
    decreases k
  {
    if k == 1 {
      assert Pow10(1) == 10 * Pow10(0);
    } else if n >= 10 {
      DigitsSize(n / 10, k - 1);
    } else {
      assert Pow10(k) == 10 * Pow10(k - 1);
    }
  }

  /** A length and its low 32 bits print as many digits. */
  predicate SameWidth(len: nat)
  {
    len < M || (len < 10_000_000_000 && len % M >= 1_000_000_000)
  }

  /** The closing assertion counts bytes, and cannot tell. */
  predicate Counted(args: seq<Bytes>) { forall i :: 0 <= i < |args| ==> SameWidth(|args[i]|) }

  lemma WidthExact(len: nat)
    ensures |Print(Wrap(len))| <= |Print(len)| && (|Print(Wrap(len))| == |Print(len)| <==> SameWidth(len))
  {
    if len >= M {
      DigitsSize(len, 9);
      DigitsSize(len, 10);
      DigitsSize(Wrap(len), 9);
      DigitsSize(Wrap(len), 10);
      assert Pow10(9) == 1_000_000_000 && Pow10(10) == 10_000_000_000 by {
        assert Pow10(3) == 1000 && Pow10(6) == 1000 * Pow10(3) && Pow10(9) == 1000 * Pow10(6);
      }
    }
  }

  /** The assertion holds if and only if every length prints as wide as its low 32 bits. */
  lemma HeldExact(args: seq<Bytes>)
    ensures |SdsForm(args)| == |Form(args)| <==> Counted(args)
  {
    WidthsExact(args, 0);
    assert args[0..] == args && Bulks(args)[0..] == Bulks(args);
  }

  lemma {:induction false} WidthsExact(args: seq<Bytes>, j: nat)
    requires j <= |args|
    ensures var x, y := |SdsBulks(args[j..])|, |EncodeAll(Bulks(args)[j..])|;
            x <= y && (x == y <==> forall i :: j <= i < |args| ==> SameWidth(|args[i]|))
    decreases |args| - j
  {
    if j < |args| {
      BulksFrom(args, j);
      SdsStep([], args, j);
      assert [] + SdsBulks(args[j..]) == SdsBulks(args[j..]);
      WidthExact(|args[j]|);
      WidthsExact(args, j + 1);
    }
  }

  // ---- inputs that fail ----

  /** Two arguments, 2^31 bytes and one: every length fits an unsigned int, and the second header is
      not placed. */
  lemma SecondHeader()
    ensures var args := [Zeros(HALF), [120]]; AllShort(args) && BeforeLast(args) > INT_MAX && !Writable(args)
  {
    var args := [Zeros(HALF), [120]];
    HeaderWithin(args, 0);
    EarlierWithin(args, 0, 0);
    assert args[0..] == args;
  }

  /** One argument of 2^32 + 10^9 bytes: its length is written wrong and the assertion holds. */
  lemma Unnoticed()
    ensures var args := [Zeros(M + 1_000_000_000)]; Counted(args) && SdsForm(args) != Form(args)
  {
    ShortExact([Zeros(M + 1_000_000_000)]);
    assert |[Zeros(M + 1_000_000_000)][0]| >= M;
  }

  /** One argument of 2^32 bytes is announced as empty. */
  lemma LongArgument()
    ensures var args := [Zeros(M)];
            SdsForm(args) == [42] + Print(1) + CRLF + ([36] + Print(0) + CRLF + Zeros(M) + CRLF)
            && SdsForm(args) != Form(args)
  {
    var args := [Zeros(M)];
    assert args[1..] == [];
    ShortExact(args);
    assert |args[0]| == M;
    assert SdsBulks(args) == [36] + Print(0) + CRLF + Zeros(M) + CRLF;
  }

  /** The same argument makes the first formatter ask for 20 bytes and run over them. */
  lemma WrappedTotal()
    ensures var total := |Form([Zeros(M)])|; total == M + 19 && Signed(total + 1) == 20
  {
    var args := [Zeros(M)];
    assert Bulks(args)[0..] == Bulks(args);
    BulksFrom(args, 0);
    assert Bulks(args)[1..] == [];
    TenDigits();
    assert |Digits(1)| == 1;
  }

  lemma TenDigits()
    ensures |Digits(M)| == 10
  {
    FourDigits(M);
    FourDigits(M / 10000);
    FewDigits(M / 10000 / 10000);
  }

  // ---- reading commands back ----

  /** A command in pieces that fit is read back as the array of the original arguments, whatever bytes
      they hold. */
  lemma {:induction false} CommandRoundTrip(args: seq<Bytes>, chunks: seq<Bytes>)
    requires |args| <= INT_MAX && (forall i :: 0 <= i < |args| ==> |args[i]| <= I64_MAX)
    requires Concat(chunks) == Form(args) && Fits(NEW_READER, chunks)
    ensures FeedPieces(NEW_READER, chunks).0 == [Arr(Bulks(args))]
    ensures View(FeedPieces(NEW_READER, chunks).1) == NEW
  {
    FlatDepth(Bulks(args));
    ReplyRoundTrip(Command(args), chunks);
  }

  lemma ShortArguments(args: seq<Bytes>)
    requires |args| <= INT_MAX && |Form(args)| <= SEEK + 1
    ensures Sendable(Command(args)) && Depth(Command(args)) <= 8
  {
    FlatDepth(Bulks(args));
    forall i | 0 <= i < |args|
      ensures |args[i]| <= I64_MAX
    {
      ShorterThanForm(args, i);
    }
  }

  lemma {:induction false} DigitsBound(n: nat)
    ensures |Digits(n)| <= n / 2 + 1
  {
    if n >= 10 { DigitsBound(n / 10); }
  }

  /** A command of 2^31 + 1 bytes and no more fits the search for its first line. */
  lemma CommandAtOnce(args: seq<Bytes>)
    requires |args| <= INT_MAX && |Form(args)| <= SEEK + 1
    ensures Comes(Command(args), Form(args))
  {
    ShortArguments(args);
    OneReply(Command(args));
    LastReply([ROOT], Form(args), Command(args));
    FirstLineAgrees(args);
    GetOneAgreesAfter([ROOT], Form(args));
    WholeReply(Command(args), Form(args));
  }

  lemma FirstLineAgrees(args: seq<Bytes>)
    requires |args| <= INT_MAX && |Form(args)| <= SEEK + 1
    ensures Step([ROOT], Form(args), C32) == Step([ROOT], Form(args))
  {
    var s, line, tail := Form(args), Print(|args|), EncodeAll(Bulks(args));
    assert s[1..] == line + CRLF + tail;
    DigitsBound(|args|);
    NumbersEnd(|args|, |args|);
    LineEnds(line, tail);
    TypedAgrees(WithKind([ROOT], KArray), s[1..]);
    TypeRead([ROOT], s, KArray, C32);
    TypeRead([ROOT], s, KArray, Unbounded);
  }

  /** Once the first step agrees, less than the room is left. */
  lemma {:induction false} GetOneAgreesAfter(stack: Stack, s: Bytes)
    requires StackOk(stack) && |s| <= SEEK + 1 && Step(stack, s, C32) == Step(stack, s)
    ensures GetOne(stack, s, C32) == GetOne(stack, s)
  {
    StepOk(stack, s);
    match Step(stack, s)
    case Fail(_) =>
    case Stuck(_, _) =>
    case Done(s1, r, _) =>
      if s1 != [] {
        DoneFresh(stack, s);
        GetOneAgrees(s1, r);
      }
  }

  /** An argument that makes the command one byte longer: nothing comes out. */
  lemma LongCommand() returns (args: seq<Bytes>)
    ensures |args| == 1 && |Form(args)| == SEEK + 2 && FeedOnce(NEW_READER, Form(args)).0 == []
  {
    args := [Zeros(SEEK - 17)];
    OneArgument(args);
    WidthOfLimit();
    assert |Form(args)| == SEEK + 2;
    NothingSeen(Form(args));
  }

  /** One byte too many: no line end is found, whatever the bytes. */
  lemma NothingSeen(s: Bytes)
    requires |s| == SEEK + 2 && KindOf(s[0]) == Some(KArray)
    ensures FeedOnce(NEW_READER, s).0 == []
  {
    assert Seen(|s[1..]|) == 0 && s[1..][..0] == [];
    TypeRead([ROOT], s, KArray, C32);
    assert Typed(WithKind([ROOT], KArray), s[1..], C32) == Stuck(WithKind([ROOT], KArray), s[1..]);
    NoReply(s, WithKind([ROOT], KArray), s[1..]);
  }

  lemma OneArgument(args: seq<Bytes>)
    requires |args| == 1
    ensures |Form(args)| == 4 + |Encode(Str(args[0]))|
  {
    assert Bulks(args)[0..] == Bulks(args);
    BulksFrom(args, 0);
    assert Bulks(args)[1..] == [];
    assert |Digits(1)| == 1;
  }

  lemma WidthOfLimit()
    ensures |Digits(SEEK - 17)| == 10
  {
    FourDigits(SEEK - 17);
    FourDigits((SEEK - 17) / 10000);
    FewDigits((SEEK - 17) / 10000 / 10000);
  }

  /** Every command comes back, fed at once, if and only if it has at most 2^31 + 1 bytes. */
  lemma CommandLimit(n: nat)
    ensures (forall args :: |args| <= INT_MAX && |Form(args)| <= n ==> Comes(Command(args), Form(args)))
            <==> n <= SEEK + 1
  {
    if n <= SEEK + 1 {
      forall args | |args| <= INT_MAX && |Form(args)| <= n
        ensures Comes(Command(args), Form(args))
      {
        CommandAtOnce(args);
      }
    } else {
      var args := LongCommand();
      assert !Comes(Command(args), Form(args));
    }
  }

  /** In whatever pieces, if and only if it has at most 2^31. */
  lemma PiecesLimit(n: nat)
    ensures (forall args, chunks: seq<Bytes> ::
               |args| <= INT_MAX && |Form(args)| <= n && Concat(chunks) == Form(args) ==>
                 ComesIn(Command(args), chunks))
            <==> n <= INT_MAX + 1
  {
    if n <= INT_MAX + 1 {
      forall args, chunks: seq<Bytes> | |args| <= INT_MAX && |Form(args)| <= n && Concat(chunks) == Form(args)
        ensures ComesIn(Command(args), chunks)
      {
        ShortArguments(args);
        ReplyFromPieces(Command(args), chunks);
      }
    } else {
      var args, chunks := CutCommand();
      assert !ComesIn(Command(args), chunks);
    }
  }

  /** One byte more, in two pieces: the second argument is lost when the first is discarded. */
  lemma CutCommand() returns (args: seq<Bytes>, chunks: seq<Bytes>)
    ensures |args| == 2 && |Form(args)| == INT_MAX + 2 && Concat(chunks) == Form(args)
    ensures FeedPieces(NEW_READER, chunks).0 == []
  {
    args := [Zeros(1024), Zeros(SECOND)];
    TwoArguments(args);
    WidthsOfTwo();
    var s := Form(args);
    chunks := [s[..INT_MAX + 1], s[INT_MAX + 1..]];
    TwoJoined(chunks);
    assert s[..INT_MAX + 1] + s[INT_MAX + 1..] == s;
    CutBeforeLast(args, s[..INT_MAX + 1]);
    OneByteLater(FeedOnce(NEW_READER, chunks[0]).1, chunks);
  }

  const SECOND: nat := INT_MAX + 2 - 4 - 1033 - 15

  lemma TwoArguments(args: seq<Bytes>)
    requires |args| == 2
    ensures Form(args) == [42] + (Print(2) + CRLF + (Encode(Str(args[0])) + Encode(Str(args[1]))))
    ensures |Form(args)| == 4 + |Encode(Str(args[0]))| + |Encode(Str(args[1]))|
  {
    var items := Bulks(args);
    assert items == [Str(args[0]), Str(args[1])];
    TwoEncoded(items[0], items[1]);
    EncodedArray(items, []);
    assert Form(args) + [] == Form(args) && EncodeAll(items) + [] == EncodeAll(items);
    assert |Digits(2)| == 1;
  }

  lemma WidthsOfTwo()
    ensures |Digits(1024)| == 4 && |Digits(SECOND)| == 10
  {
    FewDigits(1024);
    FourDigits(SECOND);
    FourDigits(SECOND / 10000);
    FewDigits(SECOND / 10000 / 10000);
  }

  /** All but the last byte: the first argument is read, the second waits, and discarding loses it. */
  lemma CutBeforeLast(args: seq<Bytes>, s: Bytes)
    requires |args| == 2 && |args[0]| >= 1024 && |args[1]| <= I64_MAX && |args[0]| <= I64_MAX
    requires |s| == INT_MAX + 1 && |Form(args)| == |s| + 1 && s == Form(args)[..|s|]
    ensures exists stack :: SecondWaits(stack) && FeedOnce(NEW_READER, s) == ([], Held(stack, [], 0))
  {
    TwoArguments(args);
    var items, first, second := Bulks(args), Encode(Str(args[0])), Encode(Str(args[1]));
    var part := second[..|second| - 1];
    assert s == [42] + (Print(2) + CRLF + (first + part));
    var stack := WaitsForLast(items, part);
    HeaderThenItem([ROOT], items, first, part, stack);
    GetOneAgrees([ROOT], s);
    var h := NewWith(s);
    NextIs(h);
    AllLost(s, |s| - |part[1..]|);
  }

  /** A bulk string in the middle of an array. */
  ghost predicate SecondWaits(stack: Stack)
  {
    StackOk(stack) && Top(stack).kind == Some(KString)
  }

  /** The second string without its last byte has to wait. */
  lemma WaitsForLast(items: seq<Reply>, part: Bytes) returns (stack: Stack)
    requires |items| == 2 && items[1].Str? && |items[1].text| <= I64_MAX
    requires part == Encode(items[1])[..|Encode(items[1])| - 1]
    ensures Ready(Inside([ROOT], items, 1)) && SecondWaits(stack)
    ensures Step(Inside([ROOT], items, 1), part) == Stuck(stack, part[1..])
  {
    var text := items[1].text;
    InsideOk([ROOT], items, 1);
    var inside := Inside([ROOT], items, 1);
    stack := WithKind(inside, KString);
    assert part[1..] == Print(|text|) + CRLF + (text + [13]);
    TypeRead(inside, part, KString, Unbounded);
    NumberText(|text|);
    TextLine(Print(|text|), text + [13]);
    assert BulkItem(stack, part[1..]) == BulkBody(stack, part[1..], |Print(|text|)| + 2, |text|);
  }

  /** The header opens the array, the first string is read, and the second leaves the reader waiting. */
  lemma {:induction false} HeaderThenItem(stack: Stack, items: seq<Reply>, first: Bytes, part: Bytes, waiting: Stack)
    requires Ready(stack) && |stack| < 9
    requires |items| == 2 && items[0].Str? && |items[0].text| <= I64_MAX && first == Encode(items[0])
    requires Ready(Inside(stack, items, 1)) && SecondWaits(waiting)
    requires part != [] && Step(Inside(stack, items, 1), part) == Stuck(waiting, part[1..])
    ensures GetOne(stack, [42] + (Print(2) + CRLF + (first + part))) == Pending(waiting, part[1..])
  {
    var s, rest := [42] + (Print(2) + CRLF + (first + part)), first + part;
    InsideOk(stack, items, 0);
    HeaderStep(stack, items, rest);
    assert s[1..] == Print(2) + CRLF + rest;
    TypeRead(stack, s, KArray, Unbounded);
    StepOn(stack, s, Inside(stack, items, 0), rest);
    FirstString(stack, items, first, part);
    StepOn(Inside(stack, items, 0), rest, Inside(stack, items, 1), part);
  }

  lemma {:induction false} StepOn(stack: Stack, s: Bytes, stack': Stack, rest: Bytes)
    requires StackOk(stack) && StackOk(stack') && Step(stack, s) == Done(stack', rest, [])
    ensures GetOne(stack, s) == GetOne(stack', rest)
  {
    StepOk(stack, s);
  }

  lemma FirstString(stack: Stack, items: seq<Reply>, first: Bytes, part: Bytes)
    requires Ready(stack) && |stack| < 9
    requires |items| == 2 && items[0].Str? && |items[0].text| <= I64_MAX && first == Encode(items[0])
    requires Ready(Inside(stack, items, 0)) && Ready(Inside(stack, items, 1))
    ensures Step(Inside(stack, items, 0), first + part) == Done(Inside(stack, items, 1), part, [])
  {
    ElementNext(stack, items, 0);
    StringRead(Inside(stack, items, 0), items[0].text, part, Inside(stack, items, 1));
  }

  lemma {:induction false} StringRead(stack: Stack, text: Bytes, rest: Bytes, next: Stack)
    requires Ready(stack) && |text| <= I64_MAX && Finish(stack, Str(text)) == (next, [])
    ensures Step(stack, Encode(Str(text)) + rest) == Done(next, rest, [])
  {
    ItemStep(stack, KString, Encode(Str(text)), rest);
    BulkAfterType(WithKind(stack, KString), text, rest);
    PlacedNext(stack, KString, Str(text), rest, next);
  }

  lemma {:induction false} PlacedNext(stack: Stack, k: Kind, v: Reply, rest: Bytes, next: Stack)
    requires Shaped(stack) && Finish(stack, v) == (next, [])
    ensures Placed(WithKind(stack, k), v, rest) == Done(next, rest, [])
  {
    FinishTop(stack, Top(WithKind(stack, k)), v);
  }

  lemma BulkAfterType(stack: Stack, text: Bytes, rest: Bytes)
    requires Shaped(stack) && Top(stack).kind == Some(KString) && |text| <= I64_MAX
    ensures Typed(stack, Encode(Str(text))[1..] + rest) == Placed(stack, Str(text), rest)
  {
    TailBulk(36, Print(|text|), text, rest);
    BulkRead(text, CRLF, stack, rest);
  }

  /** The last byte alone is no line. */
  lemma {:induction false} OneByteLater(h: Held, chunks: seq<Bytes>)
    requires |chunks| == 2 && |chunks[1]| == 1 && FeedOnce(NEW_READER, chunks[0]) == ([], h)
    requires exists stack :: SecondWaits(stack) && h == Held(stack, [], 0)
    ensures FeedPieces(NEW_READER, chunks).0 == []
  {
    LastByte(h, chunks[1..]);
    var none: seq<Reply> := [];
    assert none + none == none;
  }

  lemma {:induction false} LastByte(h: Held, chunks: seq<Bytes>)
    requires |chunks| == 1 && |chunks[0]| == 1 && h.Held? && SecondWaits(h.stack) && h.buf == [] && h.pos == 0
    ensures FeedPieces(h, chunks).0 == []
  {
    var h1 := Held(h.stack, chunks[0], 0);
    StillWaits(h.stack, chunks[0]);
    assert [] + chunks[0] == chunks[0] && chunks[1..] == [];
    assert FeedOnce(h, chunks[0]) == ([], h1);
    assert FeedPieces(h1, chunks[1..]) == Drain(h1);
  }

  lemma StillWaits(stack: Stack, b: Bytes)
    requires SecondWaits(stack) && |b| == 1
    ensures var h := Held(stack, b, 0); Next(h) == (None, h) && Drain(h) == ([], h)
  {
    assert b[0..] == b && Seek(b, C32) == -1;
    assert Step(stack, b, C32) == Stuck(stack, b);
    NextIs(Held(stack, b, 0));
  }

  lemma ShorterThanForm(args: seq<Bytes>, i: nat)
    requires i < |args|
    ensures |args[i]| <= |Form(args)|
  {
    ShorterThanBulks(args, i, 0);
    assert Bulks(args)[0..] == Bulks(args);
  }

  lemma {:induction false} ShorterThanBulks(args: seq<Bytes>, i: nat, j: nat)
    requires j <= i < |args|
    ensures |args[i]| <= |EncodeAll(Bulks(args)[j..])|
    decreases i - j
  {
    BulksFrom(args, j);
    if j < i {
      ShorterThanBulks(args, i, j + 1);
    }
  }

  lemma {:induction false} FlatDepth(items: seq<Reply>)
    requires forall i :: 0 <= i < |items| ==> !items[i].Arr?
    ensures DepthAll(items) == 0
    decreases |items|
  {
    if items != [] {
      FlatDepth(items[1..]);
    }
  }
}
