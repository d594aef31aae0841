/** The sds string library: quoting and splitting into arguments, splitting and joining by a
    separator, decimal text. */
module Sds {
  import opened U32
  import opened Options
  import opened Decimal
  import opened Seqs

  type Bytes = seq<byte>

  const QUOTE: byte := 34
  const APOS: byte := 39
  const BACKSLASH: byte := 92
  const SPACE: byte := 32

  /** isspace and isprint in the C locale. */
  predicate IsSpace(c: byte) { c == SPACE || 9 <= c <= 13 }
  predicate IsPrint(c: byte) { 32 <= c <= 126 }

  // ---- quoting ----

  function HexDigit(n: int): (c: byte)
    requires 0 <= n < 16
  {
    if n < 10 then 48 + n else 87 + n
  }

  predicate IsHex(c: byte) { 48 <= c <= 57 || 97 <= c <= 102 || 65 <= c <= 70 }

  function HexValue(c: byte): (n: int)
    ensures 0 <= n < 16
  {
    if 48 <= c <= 57 then c - 48 else if 97 <= c <= 102 then c - 87 else if 65 <= c <= 70 then c - 55 else 0
  }

  /** One byte inside quotes. */
  function Escape(c: byte): (s: Bytes)
    ensures s != []
  {
    if c == BACKSLASH || c == QUOTE then [BACKSLASH, c]
    else if c == 10 then [BACKSLASH, 110]
    else if c == 13 then [BACKSLASH, 114]
    else if c == 9 then [BACKSLASH, 116]
    else if c == 7 then [BACKSLASH, 97]
    else if c == 8 then [BACKSLASH, 98]
    else if IsPrint(c) then [c]
    else [BACKSLASH, 120, HexDigit(c / 16), HexDigit(c % 16)]
  }

  function Escaped(s: Bytes): Bytes
  {
    if s == [] then [] else Escape(s[0]) + Escaped(s[1..])
  }

  /** What sdscatrepr appends. */
  function Repr(s: Bytes): Bytes { [QUOTE] + Escaped(s) + [QUOTE] }

  method CatRepr(s0: Bytes, p: Bytes) returns (s: Bytes)
    ensures s == s0 + Repr(p)
  {
    s := s0 + [QUOTE];
    var rest := p;
    while rest != []
      invariant s + Escaped(rest) == s0 + [QUOTE] + Escaped(p)
      decreases |rest|
    {
      var c := rest[0];
      Assoc(s, Escape(c), Escaped(rest[1..]));
      if c == BACKSLASH || c == QUOTE {
        s := s + [BACKSLASH, c];
      } else if c == 10 {
        s := s + [BACKSLASH, 110];
      } else if c == 13 {
        s := s + [BACKSLASH, 114];
      } else if c == 9 {
        s := s + [BACKSLASH, 116];
      } else if c == 7 {
        s := s + [BACKSLASH, 97];
      } else if c == 8 {
        s := s + [BACKSLASH, 98];
      } else if IsPrint(c) {
        s := s + [c];
      } else {
        s := s + [BACKSLASH, 120, HexDigit(c / 16), HexDigit(c % 16)];
      }
      rest := rest[1..];
    }
    assert s + [] == s;
    s := s + [QUOTE];
    Assoc(s0, [QUOTE], Escaped(p));
    Assoc(s0, [QUOTE] + Escaped(p), [QUOTE]);
  }

  // ---- splitting a line into arguments ----

  /** A C string has no zero byte; reading at its end gives one. */
  function At(s: Bytes, i: nat): byte { if i < |s| then s[i] else 0 }

  predicate CString(s: Bytes) { forall i :: 0 <= i < |s| ==> s[i] != 0 }

  datatype Mode = Bare | Double | Single

  datatype Scan = Bad | Token(rest: Bytes, current: Bytes)

  function Unescape(c: byte): byte
  {
    if c == 110 then 10
    else if c == 114 then 13
    else if c == 116 then 9
    else if c == 98 then 8
    else if c == 97 then 7
    else c
  }

  predicate HexEscape(p: Bytes)
  {
    At(p, 0) == BACKSLASH && At(p, 1) == 120 && IsHex(At(p, 2)) && IsHex(At(p, 3))
  }

  /** The quote ends the token only before a space or the end of the line; before anything else the line is bad. */
  function Close(p: Bytes, current: Bytes): Scan
    requires p != []
  {
    if At(p, 1) != 0 && !IsSpace(At(p, 1)) then Bad else Token(p[1..], current)
  }

  /** The token that starts, or goes on, at p. */
  function ScanToken(p: Bytes, mode: Mode, current: Bytes): Scan
    requires CString(p)
    decreases |p|
  {
    if mode == Double then
      if HexEscape(p) then ScanToken(p[4..], Double, current + [HexValue(p[2]) * 16 + HexValue(p[3])])
      else if At(p, 0) == BACKSLASH && At(p, 1) != 0 then ScanToken(p[2..], Double, current + [Unescape(p[1])])
      else if At(p, 0) == QUOTE then Close(p, current)
      else if p == [] then Bad
      else ScanToken(p[1..], Double, current + [p[0]])
    else if mode == Single then
      if At(p, 0) == BACKSLASH && At(p, 1) == APOS then ScanToken(p[2..], Single, current + [APOS])
      else if At(p, 0) == APOS then Close(p, current)
      else if p == [] then Bad
      else ScanToken(p[1..], Single, current + [p[0]])
    else
      if p == [] then Token(p, current)
      else if p[0] == SPACE || p[0] == 10 || p[0] == 13 || p[0] == 9 then Token(p[1..], current)
      else if p[0] == QUOTE then ScanToken(p[1..], Double, current)
      else if p[0] == APOS then ScanToken(p[1..], Single, current)
      else ScanToken(p[1..], Bare, current + [p[0]])
  }

  function SkipBlanks(p: Bytes): (r: Bytes)
    ensures |r| <= |p| && (CString(p) ==> CString(r)) && (r != [] ==> !IsSpace(r[0]))
  {
    if p != [] && IsSpace(p[0]) then SkipBlanks(p[1..]) else p
  }

  lemma {:induction false} ScanShorter(p: Bytes, mode: Mode, current: Bytes)
    requires CString(p)
    ensures var t := ScanToken(p, mode, current);
            t.Token? ==> CString(t.rest) && |t.rest| <= |p| && (p != [] && !IsSpace(p[0]) ==> |t.rest| < |p|)
    decreases |p|
  {
    if mode == Double {
      if HexEscape(p) { ScanShorter(p[4..], Double, current + [HexValue(p[2]) * 16 + HexValue(p[3])]); }
      else if At(p, 0) == BACKSLASH && At(p, 1) != 0 { ScanShorter(p[2..], Double, current + [Unescape(p[1])]); }
      else if p != [] && p[0] != QUOTE { ScanShorter(p[1..], Double, current + [p[0]]); }
    } else if mode == Single {
      if At(p, 0) == BACKSLASH && At(p, 1) == APOS { ScanShorter(p[2..], Single, current + [APOS]); }
      else if p != [] && p[0] != APOS { ScanShorter(p[1..], Single, current + [p[0]]); }
    } else if p != [] {
      ScanShorter(p[1..], if p[0] == QUOTE then Double else if p[0] == APOS then Single else Bare,
                  if p[0] == QUOTE || p[0] == APOS then current else current + [p[0]]);
    }
  }

  /** sdssplitargs; None for unbalanced quotes or text right after a closing quote. */
  function SplitArgs(p: Bytes): Option<seq<Bytes>>
    requires CString(p)
    decreases |p|
  {
    var q := SkipBlanks(p);
    if q == [] then Some([])
    else
      ScanShorter(q, Bare, []);
      match ScanToken(q, Bare, [])
      case Bad => None
      case Token(rest, current) =>
        match SplitArgs(rest)
        case None => None
        case Some(more) => Some([current] + more)
  }

  // ---- the quoting round trip ----

  /** Reading one escaped byte back. */
  lemma {:induction false} EscapeRead(c: byte, rest: Bytes, current: Bytes)
    requires CString(Escape(c) + rest)
    ensures CString(rest)
    ensures ScanToken(Escape(c) + rest, Double, current) == ScanToken(rest, Double, current + [c])
  {
    var p := Escape(c) + rest;
    assert p[|Escape(c)|..] == rest;
    assert forall i :: 0 <= i < |rest| ==> rest[i] == p[|Escape(c)| + i];
    if |Escape(c)| == 4 {
      assert p[2] == HexDigit(c / 16) && p[3] == HexDigit(c % 16);
      assert HexValue(p[2]) * 16 + HexValue(p[3]) == c;
    } else if |Escape(c)| == 2 {
      assert !HexEscape(p);
      assert Unescape(p[1]) == c;
    }
  }

  lemma {:induction false} QuotedRead(s: Bytes, rest: Bytes, current: Bytes)
    requires rest == [] || IsSpace(rest[0])
    requires CString(Escaped(s) + [QUOTE] + rest)
    ensures ScanToken(Escaped(s) + [QUOTE] + rest, Double, current) == Token(rest, current + s)
    decreases |s|
  {
    var p := Escaped(s) + [QUOTE] + rest;
    if s == [] {
      assert p == [QUOTE] + rest && p[1..] == rest;
      assert current + s == current;
    } else {
      var tail := Escaped(s[1..]) + [QUOTE] + rest;
      assert p == Escape(s[0]) + tail;
      EscapeRead(s[0], tail, current);
      QuotedRead(s[1..], rest, current + [s[0]]);
      assert current + [s[0]] + s[1..] == current + s;
    }
  }

  lemma {:induction false} EscapedCString(s: Bytes)
    ensures CString(Escaped(s))
  {
    if s != [] {
      EscapedCString(s[1..]);
    }
  }

  function Join(parts: seq<Bytes>, sep: Bytes): Bytes
  {
    if parts == [] then [] else if |parts| == 1 then parts[0] else parts[0] + sep + Join(parts[1..], sep)
  }

  function Reprs(args: seq<Bytes>): (r: seq<Bytes>)
    ensures |r| == |args| && forall i :: 0 <= i < |args| ==> r[i] == Repr(args[i])
  {
    seq(|args|, i requires 0 <= i < |args| => Repr(args[i]))
  }

  lemma {:induction false} ReprRead(s: Bytes, rest: Bytes)
    requires rest == [] || (IsSpace(rest[0]) && CString(rest))
    ensures CString(Repr(s) + rest)
    ensures SkipBlanks(Repr(s) + rest) == Repr(s) + rest
    ensures ScanToken(Repr(s) + rest, Bare, []) == Token(rest, s)
  {
    var q := Escaped(s) + [QUOTE] + rest;
    assert CString(q) by {
      EscapedCString(s);
    }
    OpenQuote(q);
    assert Repr(s) + rest == [QUOTE] + q by {
      Assoc([QUOTE], Escaped(s), [QUOTE]);
      Assoc([QUOTE], Escaped(s) + [QUOTE], rest);
    }
    QuotedRead(s, rest, []);
    assert [] + s == s;
  }

  lemma {:induction false} OpenQuote(q: Bytes)
    requires CString(q)
    ensures CString([QUOTE] + q) && SkipBlanks([QUOTE] + q) == [QUOTE] + q
    ensures ScanToken([QUOTE] + q, Bare, []) == ScanToken(q, Double, [])
  {
    assert ([QUOTE] + q)[1..] == q;
  }

  /** For every list of byte strings: their quoted forms joined by spaces are a C string that splits
      back into the list. */
  lemma {:induction false} QuotingRoundTrip(args: seq<Bytes>)
    ensures CString(Join(Reprs(args), [SPACE])) && SplitArgs(Join(Reprs(args), [SPACE])) == Some(args)
    decreases |args|
  {
    var line := Join(Reprs(args), [SPACE]);
    if |args| == 1 {
      ReprRead(args[0], []);
      assert line == Repr(args[0]) + [];
      assert [args[0]] + [] == args;
    } else if |args| > 1 {
      assert Reprs(args)[1..] == Reprs(args[1..]);
      QuotingRoundTrip(args[1..]);
      var tail := Join(Reprs(args[1..]), [SPACE]);
      BlankFirst(tail);
      ReprRead(args[0], [SPACE] + tail);
      assert line == Repr(args[0]) + ([SPACE] + tail);
      assert [args[0]] + args[1..] == args;
    }
  }

  lemma {:induction false} BlankFirst(p: Bytes)
    requires CString(p)
    ensures CString([SPACE] + p) && SplitArgs([SPACE] + p) == SplitArgs(p)
  {
    assert ([SPACE] + p)[1..] == p;
  }

  // ---- the code ----

  /** What one turn of the token loop does: it fails, or ends the token, or goes on behind p. */
  ghost predicate Turned(line: Bytes, t: Scan, ok: bool, done: bool, p: nat, mode: Mode, current: Bytes)
  {
    && CString(line) && p <= |line|
    && (!ok ==> t == Bad)
    && (ok && done ==> t == Token(line[Behind(line, p)..], current))
    && (ok && !done ==> t == ScanToken(line[Behind(line, p)..], mode, current))
  }

  function Behind(line: Bytes, p: nat): (q: nat)
    requires CString(line) && p <= |line|
    ensures p <= q <= |line|
  {
    if At(line, p) != 0 then p + 1 else p
  }

  method TurnDouble(line: Bytes, p0: nat, current0: Bytes) returns (ok: bool, done: bool, p: nat, current: Bytes)
    requires CString(line) && p0 <= |line|
    ensures p0 <= p && Turned(line, ScanToken(line[p0..], Double, current0), ok, done, p, Double, current)
    ensures ok && !done ==> p < |line|
  {
    ok, done, p, current := true, false, p0, current0;
    Suffix(line, p);
    if At(line, p) == BACKSLASH && At(line, p + 1) == 120 && IsHex(At(line, p + 2)) && IsHex(At(line, p + 3)) {
      current := current + [HexValue(line[p + 2]) * 16 + HexValue(line[p + 3])];
      p := p + 3;
    } else if At(line, p) == BACKSLASH && At(line, p + 1) != 0 {
      p := p + 1;
      current := current + [Unescape(line[p])];
    } else if At(line, p) == QUOTE {
      if At(line, p + 1) != 0 && !IsSpace(At(line, p + 1)) {
        ok := false;
      }
      done := true;
    } else if At(line, p) == 0 {
      ok := false;
    } else {
      current := current + [line[p]];
    }
  }

  method TurnSingle(line: Bytes, p0: nat, current0: Bytes) returns (ok: bool, done: bool, p: nat, current: Bytes)
    requires CString(line) && p0 <= |line|
    ensures p0 <= p && Turned(line, ScanToken(line[p0..], Single, current0), ok, done, p, Single, current)
    ensures ok && !done ==> p < |line|
  {
    ok, done, p, current := true, false, p0, current0;
    Suffix(line, p);
    if At(line, p) == BACKSLASH && At(line, p + 1) == APOS {
      p := p + 1;
      current := current + [APOS];
    } else if At(line, p) == APOS {
      if At(line, p + 1) != 0 && !IsSpace(At(line, p + 1)) {
        ok := false;
      }
      done := true;
    } else if At(line, p) == 0 {
      ok := false;
    } else {
      current := current + [line[p]];
    }
  }

  method TurnBare(line: Bytes, p: nat, current0: Bytes) returns (done: bool, mode: Mode, current: Bytes)
    requires CString(line) && p <= |line|
    ensures Turned(line, ScanToken(line[p..], Bare, current0), true, done, p, mode, current)
    ensures !done ==> p < |line|
  {
    done, mode, current := false, Bare, current0;
    Suffix(line, p);
    var c := At(line, p);
    if c == SPACE || c == 10 || c == 13 || c == 9 || c == 0 {
      done := true;
    } else if c == QUOTE {
      mode := Double;
    } else if c == APOS {
      mode := Single;
    } else {
      current := current + [c];
    }
  }

  /** The token loop of sdssplitargs; mode stands for its flags inq and insq. */
  method TakeToken(line: Bytes, p0: nat) returns (ok: bool, p: nat, current: Bytes)
    requires CString(line) && p0 <= |line|
    ensures p <= |line|
    ensures (if ok then Token(line[p..], current) else Bad) == ScanToken(line[p0..], Bare, [])
  {
    p, current := p0, [];
    var mode, done := Bare, false;
    while !done
      invariant p <= |line|
      invariant done ==> Token(line[p..], current) == ScanToken(line[p0..], Bare, [])
      invariant !done ==> ScanToken(line[p..], mode, current) == ScanToken(line[p0..], Bare, [])
      decreases |line| - p, !done
    {
      ok := true;
      if mode == Double {
        ok, done, p, current := TurnDouble(line, p, current);
      } else if mode == Single {
        ok, done, p, current := TurnSingle(line, p, current);
      } else {
        done, mode, current := TurnBare(line, p, current);
      }
      if !ok {
        return;
      }
      if At(line, p) != 0 {
        p := p + 1;
      }
    }
    ok := true;
  }

  lemma Suffix(line: Bytes, p: nat)
    requires CString(line) && p <= |line|
    ensures CString(line[p..])
    ensures forall i: nat :: At(line[p..], i) == At(line, p + i)
    ensures forall i: nat :: i <= |line| - p ==> line[p..][i..] == line[p + i..]
  {
  }

  method SkipBlanksAt(line: Bytes, p0: nat) returns (p: nat)
    requires p0 <= |line|
    ensures p0 <= p <= |line| && line[p..] == SkipBlanks(line[p0..])
  {
    p := p0;
    while p < |line| && IsSpace(line[p])
      invariant p0 <= p <= |line| && SkipBlanks(line[p..]) == SkipBlanks(line[p0..])
    {
      assert line[p..][1..] == line[p + 1..];
      p := p + 1;
    }
  }

  /** The result when these arguments come before those of the rest of the line. */
  function Prepend(vector: seq<Bytes>, r: Option<seq<Bytes>>): Option<seq<Bytes>>
  {
    match r
    case None => None
    case Some(more) => Some(vector + more)
  }

  /** One argument of the line. */
  lemma {:induction false} SplitOne(p: Bytes, vector: seq<Bytes>)
    requires CString(p)
    ensures var q := SkipBlanks(p);
            if q == [] then Prepend(vector, SplitArgs(p)) == Some(vector)
            else
              match ScanToken(q, Bare, [])
              case Bad => Prepend(vector, SplitArgs(p)) == None
              case Token(rest, current) =>
                && CString(rest) && |rest| < |q|
                && Prepend(vector, SplitArgs(p)) == Prepend(vector + [current], SplitArgs(rest))
  {
    var q := SkipBlanks(p);
    if q == [] {
      assert vector + [] == vector;
    } else {
      ScanShorter(q, Bare, []);
      var t := ScanToken(q, Bare, []);
      if t.Token? && SplitArgs(t.rest).Some? {
        Assoc(vector, [t.current], SplitArgs(t.rest).value);
      }
    }
  }

  /** sdssplitargs as the code runs. */
  method SplitArgsLine(line: Bytes) returns (r: Option<seq<Bytes>>)
    requires CString(line)
    ensures r == SplitArgs(line)
  {
    var p := 0;
    var vector: seq<Bytes> := [];
    assert line[0..] == line;
    assert SplitArgs(line).Some? ==> vector + SplitArgs(line).value == SplitArgs(line).value;
    while true
      invariant p <= |line| && CString(line[p..]) && Prepend(vector, SplitArgs(line[p..])) == SplitArgs(line)
      decreases |line| - p
    {
      SplitOne(line[p..], vector);
      p := SkipBlanksAt(line, p);
      if p == |line| {
        return Some(vector);
      }
      var ok, next, current := TakeToken(line, p);
      if !ok {
        return None;
      }
      p := next;
      vector := vector + [current];
    }
  }

  // ---- splitting and joining by a separator ----

  predicate StartsWith(s: Bytes, sep: Bytes) { |sep| <= |s| && s[..|sep|] == sep }

  /** The place of the first separator, or -1. */
  function Find(s: Bytes, sep: Bytes): (n: int)
    requires sep != []
    ensures -1 <= n && (n >= 0 ==> n + |sep| <= |s|)
  {
    if |s| < |sep| then -1
    else if StartsWith(s, sep) then 0
    else
      var n := Find(s[1..], sep);
      if n < 0 then -1 else n + 1
  }

  function Pieces(s: Bytes, sep: Bytes): (r: seq<Bytes>)
    requires sep != []
    ensures r != []
    decreases |s|
  {
    var n := Find(s, sep);
    if n < 0 then [s] else [s[..n]] + Pieces(s[n + |sep|..], sep)
  }

  /** sdssplitlen: None stands for its NULL, on an empty separator. */
  function Split(s: Bytes, sep: Bytes): Option<seq<Bytes>>
  {
    if sep == [] then None else if s == [] then Some([]) else Some(Pieces(s, sep))
  }

  method SplitLen(s: Bytes, sep: Bytes) returns (r: Option<seq<Bytes>>)
    ensures r == Split(s, sep)
  {
    if |sep| < 1 {
      return None;
    }
    var tokens: seq<Bytes> := [];
    if |s| == 0 {
      return Some(tokens);
    }
    var start, j := 0, 0;
    SplitStart(s, sep);
    while j < |s| - (|sep| - 1)
      invariant 0 <= start <= j <= |s| && SplitSoFar(s, sep, tokens, start, j)
    {
      tokens, start, j := SplitTurn(s, sep, tokens, start, j);
      j := j + 1;
    }
    LastPiece(s, sep, tokens, start, j);
    tokens := tokens + [s[start..]];
    r := Some(tokens);
  }

  /** One turn of its loop: at a separator the piece before it is taken and the separator skipped. */
  method SplitTurn(s: Bytes, sep: Bytes, tokens0: seq<Bytes>, start0: nat, j0: nat)
    returns (tokens: seq<Bytes>, start: nat, j: nat)
    requires sep != [] && start0 <= j0 && j0 + |sep| <= |s| && SplitSoFar(s, sep, tokens0, start0, j0)
    ensures start <= j + 1 <= |s| && j >= j0 && SplitSoFar(s, sep, tokens, start, j + 1)
  {
    tokens, start, j := tokens0, start0, j0;
    if s[j..j + |sep|] == sep {
      FoundAt(s, sep, tokens, start, j);
      tokens := tokens + [s[start..j]];
      start := j + |sep|;
      j := j + |sep| - 1;
    } else {
      NotAt(s, sep, tokens, start, j);
    }
  }

  /** The pieces before start are done, and no separator starts from start up to j. */
  ghost predicate SplitSoFar(s: Bytes, sep: Bytes, tokens: seq<Bytes>, start: nat, j: nat)
    requires sep != [] && start <= j <= |s|
  {
    && tokens + Pieces(s[start..], sep) == Pieces(s, sep)
    && Find(s[start..], sep) == if Find(s[j..], sep) < 0 then -1 else j - start + Find(s[j..], sep)
  }

  lemma SplitStart(s: Bytes, sep: Bytes)
    requires sep != []
    ensures SplitSoFar(s, sep, [], 0, 0)
  {
    assert s[0..] == s;
    assert [] + Pieces(s, sep) == Pieces(s, sep);
  }

  lemma {:induction false} FindHere(s: Bytes, sep: Bytes, j: nat)
    requires sep != [] && j + |sep| <= |s|
    ensures Find(s[j..], sep) == 0 <==> s[j..j + |sep|] == sep
  {
    DropTake(s, j, j + |sep|);
  }

  lemma FoundAt(s: Bytes, sep: Bytes, tokens: seq<Bytes>, start: nat, j: nat)
    requires sep != [] && start <= j && j + |sep| <= |s| && SplitSoFar(s, sep, tokens, start, j)
             && s[j..j + |sep|] == sep
    ensures SplitSoFar(s, sep, tokens + [s[start..j]], j + |sep|, j + |sep|)
  {
    FindHere(s, sep, j);
    DropTake(s, start, j);
    DropTake(s, start, j + |sep|);
    Assoc(tokens, [s[start..j]], Pieces(s[j + |sep|..], sep));
  }

  lemma NotAt(s: Bytes, sep: Bytes, tokens: seq<Bytes>, start: nat, j: nat)
    requires sep != [] && start <= j && j + |sep| <= |s| && SplitSoFar(s, sep, tokens, start, j)
             && s[j..j + |sep|] != sep
    ensures SplitSoFar(s, sep, tokens, start, j + 1)
  {
    FindHere(s, sep, j);
    DropTake(s, j, j + 1);
  }

  lemma {:induction false} LastPiece(s: Bytes, sep: Bytes, tokens: seq<Bytes>, start: nat, j: nat)
    requires sep != [] && start <= j <= |s| && SplitSoFar(s, sep, tokens, start, j) && |s| - j < |sep|
    ensures tokens + [s[start..]] == Pieces(s, sep)
  {
  }

  lemma DropTake(s: Bytes, a: nat, b: nat)
    requires a <= b <= |s|
    ensures s[a..][..b - a] == s[a..b] && s[a..][b - a..] == s[b..]
  {
  }

  method JoinSds(argv: seq<Bytes>, sep: Bytes) returns (join: Bytes)
    ensures join == Join(argv, sep)
  {
    join := [];
    var j := 0;
    assert argv[0..] == argv;
    while j < |argv|
      invariant 0 <= j <= |argv|
      invariant join + Join(argv[j..], sep) == Join(argv, sep)
    {
      assert argv[j..][0] == argv[j] && argv[j..][1..] == argv[j + 1..];
      ghost var before := join;
      join := join + argv[j];
      if j != |argv| - 1 {
        join := join + sep;
        Assoc(before, argv[j] + sep, Join(argv[j + 1..], sep));
        Assoc(before, argv[j], sep);
      } else {
        assert join + [] == join;
      }
      j := j + 1;
    }
    assert join + [] == join;
  }

  /** Joining what was split with the same separator gives the string back, and no piece contains
      the separator. */
  lemma {:induction false} SplitJoin(s: Bytes, sep: Bytes)
    ensures Split(s, sep).Some? <==> sep != []
    ensures sep != [] ==> Join(Split(s, sep).value, sep) == s
    ensures sep != [] ==> forall t :: t in Split(s, sep).value ==> Find(t, sep) < 0
  {
    if sep != [] && s != [] {
      PiecesJoin(s, sep);
    }
  }

  lemma {:induction false} PiecesJoin(s: Bytes, sep: Bytes)
    requires sep != []
    ensures Join(Pieces(s, sep), sep) == s && forall t :: t in Pieces(s, sep) ==> Find(t, sep) < 0
    decreases |s|
  {
    var n := Find(s, sep);
    if n >= 0 {
      var rest := s[n + |sep|..];
      PiecesJoin(rest, sep);
      FirstPiece(s, sep);
      FindIs(s, sep);
      assert s == s[..n] + sep + rest;
      assert ([s[..n]] + Pieces(rest, sep))[1..] == Pieces(rest, sep);
    }
  }

  lemma {:induction false} FindIs(s: Bytes, sep: Bytes)
    requires sep != [] && Find(s, sep) >= 0
    ensures s[Find(s, sep)..Find(s, sep) + |sep|] == sep
    decreases |s|
  {
    var n := Find(s, sep);
    if n > 0 {
      FindIs(s[1..], sep);
      assert s[1..][n - 1..n - 1 + |sep|] == s[n..n + |sep|];
    }
  }

  lemma {:induction false} FirstPiece(s: Bytes, sep: Bytes)
    requires sep != [] && Find(s, sep) >= 0
    ensures Find(s[..Find(s, sep)], sep) < 0
    decreases |s|
  {
    var n := Find(s, sep);
    if n > 0 {
      FirstPiece(s[1..], sep);
      assert s[..n][1..] == s[1..][..n - 1];
      if |sep| <= n {
        assert s[..n][..|sep|] == s[..|sep|];
      }
    }
  }

  // ---- decimal text ----

  ghost function Reversed(s: Bytes): (r: Bytes)
    ensures |r| == |s| && forall i :: 0 <= i < |s| ==> r[i] == s[|s| - 1 - i]
  {
    seq(|s|, i requires 0 <= i < |s| => s[|s| - 1 - i])
  }

  lemma ReversedSnoc(a: Bytes, x: byte)
    ensures Reversed(a + [x]) == [x] + Reversed(a)
  {
  }

  /** sdsll2str: the digits are produced backwards and reversed in place. */
  method LL2Str(s: array<byte>, value: int) returns (l: nat)
    requires s.Length >= 21 && I64_MIN <= value <= I64_MAX
    modifies s
    ensures l < s.Length && s[..l] == Print(value) && s[l] == 0
  {
    var v := if value < 0 then -value else value;
    var p := PutDigits(s, v);
    if value < 0 {
      ghost var digits := s[..p];
      s[p] := MINUS;
      assert s[..p + 1] == digits + [MINUS];
      ReversedSnoc(digits, MINUS);
      p := p + 1;
    }
    l := p;
    ghost var text := s[..l];
    s[l] := 0;
    assert s[..l] == text;
    ReverseFirst(s, l);
  }

  /** sdsull2str */
  method ULL2Str(s: array<byte>, v: int) returns (l: nat)
    requires s.Length >= 21 && 0 <= v <= U64_MAX
    modifies s
    ensures l < s.Length && s[..l] == Digits(v) && s[l] == 0
  {
    l := PutDigits(s, v);
    ghost var text := s[..l];
    s[l] := 0;
    assert s[..l] == text;
    ReverseFirst(s, l);
  }

  /** The digits still to be produced. */
  function Upper(v: nat): Bytes { if v == 0 then [] else Digits(v) }

  /** The do-while loop of both: the digits from the last. */
  method PutDigits(s: array<byte>, v0: nat) returns (p: nat)
    requires s.Length >= 21 && v0 <= U64_MAX
    modifies s
    ensures 0 < p <= 20 && Reversed(s[..p]) == Digits(v0)
    ensures v0 <= -I64_MIN ==> p <= 19
  {
    DigitsBound(v0);
    var v := v0;
    s[0] := ZERO + v % 10;
    p := 1;
    v := v / 10;
    assert Reversed(s[..1]) == [ZERO + v0 % 10];
    LastDigit(v0);
    while v != 0
      invariant 1 <= p && p + |Upper(v)| == |Digits(v0)| && 0 <= v
      invariant Upper(v) + Reversed(s[..p]) == Digits(v0)
      decreases v
    {
      ghost var more := s[..p];
      var d := ZERO + v % 10;
      LastDigit(v);
      Assoc(Upper(v / 10), [d], Reversed(more));
      ReversedSnoc(more, d);
      s[p] := d;
      assert s[..p + 1] == more + [d];
      p := p + 1;
      v := v / 10;
    }
    assert Upper(0) + Reversed(s[..p]) == Reversed(s[..p]);
  }

  lemma {:induction false} LastDigit(v: nat)
    ensures Digits(v) == Upper(v / 10) + [ZERO + v % 10]
  {
  }

  lemma {:induction false} DigitsBound(v: nat)
    ensures v <= U64_MAX ==> |Digits(v)| <= 20
    ensures v <= -I64_MIN ==> |Digits(v)| <= 19
  {
    if v >= 10000 { FourDigits(v); } else { FewDigits(v); }
    var w := v / 10000;
    if w >= 10000 { FourDigits(w); } else { FewDigits(w); }
    var x := w / 10000;
    if x >= 10000 { FourDigits(x); } else { FewDigits(x); }
    var y := x / 10000;
    if y >= 10000 { FourDigits(y); } else { FewDigits(y); }
    var z := y / 10000;
    FewDigits(z);
  }

  /** The swapping loop. */
  method ReverseFirst(s: array<byte>, l: nat)
    requires 0 < l < s.Length
    modifies s
    ensures s[..l] == Reversed(old(s[..l])) && s[l] == old(s[l])
  {
    var a, b := 0, l - 1;
    while a < b
      invariant 0 <= a <= l && a + b == l - 1 && s[l] == old(s[l])
      invariant forall k :: 0 <= k < a ==> s[k] == old(s[l - 1 - k]) && s[l - 1 - k] == old(s[k])
      invariant forall k :: a <= k <= b ==> s[k] == old(s[k])
    {
      s[a], s[b] := s[b], s[a];
      a := a + 1;
      b := b - 1;
    }
  }
}
