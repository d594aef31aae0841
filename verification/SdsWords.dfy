/** The language of sdssplitargs: words written bare, in double quotes or in single quotes, with blanks
    between them, and the lines that are refused; and what sdscatrepr writes. */
module SdsWords {
  import opened U32
  import opened Options
  import opened Sds
  import opened Seqs

  // ---- double quotes ----

  /** What may stand between double quotes: a byte as it is, a backslash with another byte, or \x with two
      hexadecimal digits. */
  datatype Part = Raw(c: byte) | Esc(c: byte) | Hex(h: byte, l: byte)

  predicate HexLetter(c: byte) { 48 <= c <= 57 || 65 <= c <= 70 || 97 <= c <= 102 }

  function HexNumber(c: byte): (n: int)
    requires HexLetter(c)
    ensures 0 <= n < 16
  {
    if c <= 57 then c - 48 else if c <= 70 then c - 65 + 10 else c - 97 + 10
  }

  predicate PartOk(d: Part, next: Bytes)
  {
    match d
    case Raw(c) => c !in {0, 34, 92}
    case Esc(c) => c != 0 && !(c == 120 && |next| >= 2 && HexLetter(next[0]) && HexLetter(next[1]))
    case Hex(h, l) => HexLetter(h) && HexLetter(l)
  }

  function PartText(d: Part): (s: Bytes)
    ensures s != []
  {
    match d
    case Raw(c) => [c]
    case Esc(c) => [92, c]
    case Hex(h, l) => [92, 120, h, l]
  }

  /** The byte it stands for: \n, \r, \t, \b and \a the usual ones, any other byte after a backslash itself. */
  function PartByte(d: Part): byte
    requires PartOk(d, [])
  {
    match d
    case Raw(c) => c
    case Esc(c) => if c == 110 then 10 else if c == 114 then 13 else if c == 116 then 9
                   else if c == 98 then 8 else if c == 97 then 7 else c
    case Hex(h, l) => HexNumber(h) * 16 + HexNumber(l)
  }

  function BodyText(parts: seq<Part>): Bytes
  {
    if parts == [] then [] else PartText(parts[0]) + BodyText(parts[1..])
  }

  predicate BodyOk(parts: seq<Part>)
  {
    parts == [] || (PartOk(parts[0], BodyText(parts[1..])) && PartOk(parts[0], []) && BodyOk(parts[1..]))
  }

  function BodyBytes(parts: seq<Part>): (s: Bytes)
    requires BodyOk(parts)
  {
    if parts == [] then [] else [PartByte(parts[0])] + BodyBytes(parts[1..])
  }

  /** Two texts that go on alike as far as a \x looks, or the second with no hexadecimal digit. */
  ghost predicate LooksAlike(next: Bytes, tail: Bytes)
  {
    next <= tail && (|next| < 2 && |tail| > |next| ==> !HexLetter(tail[|next|]))
  }

  lemma {:induction false} PartRead(d: Part, next: Bytes, tail: Bytes, current: Bytes)
    requires PartOk(d, next) && PartOk(d, []) && LooksAlike(next, tail) && CString(tail)
    ensures CString(PartText(d) + tail)
    ensures ScanToken(PartText(d) + tail, Double, current) == ScanToken(tail, Double, current + [PartByte(d)])
  {
    var p := PartText(d) + tail;
    assert p[|PartText(d)|..] == tail;
    match d
    case Raw(c) =>
    case Esc(c) =>
      assert p[2..] == tail && At(p, 2) == At(tail, 0) && At(p, 3) == At(tail, 1);
      assert !HexEscape(p);
    case Hex(h, l) =>
      assert p[4..] == tail;
      assert HexEscape(p);
  }

  /** After the parts comes what ends the scan: the closing quote, or the end of the line. */
  lemma {:induction false} BodyRead(parts: seq<Part>, tail: Bytes, current: Bytes)
    requires BodyOk(parts) && CString(tail) && (tail != [] ==> !HexLetter(tail[0]))
    ensures CString(BodyText(parts) + tail)
    ensures ScanToken(BodyText(parts) + tail, Double, current) == ScanToken(tail, Double, current + BodyBytes(parts))
    decreases |parts|
  {
    if parts == [] {
      assert [] + tail == tail && current + [] == current;
    } else {
      var next := BodyText(parts[1..]);
      BodyRead(parts[1..], tail, current + [PartByte(parts[0])]);
      assert LooksAlike(next, next + tail);
      PartRead(parts[0], next, next + tail, current);
      Assoc(PartText(parts[0]), next, tail);
      Assoc(current, [PartByte(parts[0])], BodyBytes(parts[1..]));
    }
  }

  // ---- single quotes ----

  /** Between single quotes only \' stands for something else, an apostrophe. */
  function Apostrophed(s: Bytes): Bytes
  {
    if s == [] then [] else (if s[0] == 39 then [92, 39] else [s[0]]) + Apostrophed(s[1..])
  }

  /** A text that ends in a backslash cannot be written so: the backslash would take the closing quote. */
  predicate SingleOk(s: Bytes) { CString(s) && (s != [] ==> s[|s| - 1] != 92) }

  lemma {:induction false} SingleRead(s: Bytes, tail: Bytes, current: Bytes)
    requires CString(s) && CString(tail) && (tail != [] && s != [] && s[|s| - 1] == 92 ==> tail[0] != 39)
    ensures CString(Apostrophed(s) + tail)
    ensures ScanToken(Apostrophed(s) + tail, Single, current) == ScanToken(tail, Single, current + s)
    decreases |s|
  {
    if s == [] {
      assert [] + tail == tail && current + [] == current;
    } else {
      var first := if s[0] == 39 then [92, 39] else [s[0]];
      var rest := Apostrophed(s[1..]) + tail;
      var p := first + rest;
      SingleRead(s[1..], tail, current + [s[0]]);
      Assoc(first, Apostrophed(s[1..]), tail);
      assert p[|first|..] == rest;
      assert s[0] == 92 ==> At(p, 1) != 39 by {
        if s[0] == 92 && |s| > 1 { assert Apostrophed(s[1..])[0] != 39; }
      }
      assert current + [s[0]] + s[1..] == current + s;
    }
  }

  // ---- words ----

  /** A word: bare text, and perhaps a quoted part that ends it. */
  datatype Word = Plain(b: Bytes) | InDouble(b: Bytes, parts: seq<Part>) | InSingle(b: Bytes, s: Bytes)

  /** What a bare text may hold: no quotes, no zero byte, and no blank but the two that do not end it. */
  predicate BareOk(b: Bytes)
  {
    (forall i :: 0 <= i < |b| ==> b[i] !in {0, 9, 10, 13, 32, 34, 39}) && (b != [] ==> b[0] !in {11, 12})
  }

  predicate WordOk(w: Word)
  {
    && BareOk(w.b)
    && match w
       case Plain(b) => b != []
       case InDouble(_, parts) => BodyOk(parts)
       case InSingle(_, s) => SingleOk(s)
  }

  function WordText(w: Word): Bytes
  {
    match w
    case Plain(b) => b
    case InDouble(b, parts) => b + ([34] + (BodyText(parts) + [34]))
    case InSingle(b, s) => b + ([39] + (Apostrophed(s) + [39]))
  }

  function WordBytes(w: Word): Bytes
    requires WordOk(w)
  {
    match w
    case Plain(b) => b
    case InDouble(b, parts) => b + BodyBytes(parts)
    case InSingle(b, s) => b + s
  }

  lemma {:induction false} BareRead(b: Bytes, tail: Bytes, current: Bytes)
    requires (forall i :: 0 <= i < |b| ==> b[i] !in {0, 9, 10, 13, 32, 34, 39}) && CString(tail)
    ensures CString(b + tail) && ScanToken(b + tail, Bare, current) == ScanToken(tail, Bare, current + b)
    decreases |b|
  {
    if b == [] {
      assert b + tail == tail && current + [] == current;
    } else {
      BareRead(b[1..], tail, current + [b[0]]);
      assert (b + tail)[1..] == b[1..] + tail;
      assert current + [b[0]] + b[1..] == current + b;
    }
  }

  /** What may follow a word: nothing, or a blank; after bare text one of the four that end it. */
  predicate Follows(w: Word, tail: Bytes)
  {
    tail == [] || (if w.Plain? then tail[0] in {9, 10, 13, 32} else tail[0] == 32 || 9 <= tail[0] <= 13)
  }

  /** A word is read as what it stands for, up to what follows it. */
  lemma {:induction false} WordRead(w: Word, tail: Bytes)
    requires WordOk(w) && Follows(w, tail) && CString(tail)
    ensures CString(WordText(w) + tail)
    ensures ScanToken(WordText(w) + tail, Bare, [])
            == Token(if w.Plain? && tail != [] then tail[1..] else tail, WordBytes(w))
  {
    match w
    case Plain(b) =>
      BareRead(b, tail, []);
      assert [] + b == b;
    case InDouble(b, parts) =>
      BodyRead(parts, [34] + tail, b);
      Opened(b, 34, BodyText(parts), tail);
      BareRead(b, [34] + (BodyText(parts) + ([34] + tail)), []);
      assert [] + b == b;
      OpensWith(BodyText(parts) + ([34] + tail), 34, b);
      ClosesWith([34] + tail, tail);
    case InSingle(b, s) =>
      SingleClosed(s, tail, b);
      Opened(b, 39, Apostrophed(s), tail);
      BareRead(b, [39] + (Apostrophed(s) + ([39] + tail)), []);
      assert [] + b == b;
      OpensWith(Apostrophed(s) + ([39] + tail), 39, b);
  }

  lemma {:induction false} SingleClosed(s: Bytes, tail: Bytes, current: Bytes)
    requires SingleOk(s) && CString(tail) && (tail != [] ==> tail[0] == 32 || 9 <= tail[0] <= 13)
    ensures CString(Apostrophed(s) + ([39] + tail))
    ensures ScanToken(Apostrophed(s) + ([39] + tail), Single, current) == Token(tail, current + s)
  {
    SingleRead(s, [39] + tail, current);
    ClosesWith([39] + tail, tail);
  }

  lemma {:induction false} Opened(b: Bytes, q: byte, body: Bytes, tail: Bytes)
    ensures b + ([q] + (body + [q])) + tail == b + ([q] + (body + ([q] + tail)))
  {
    Assoc(body, [q], tail);
    Assoc([q], body + [q], tail);
    Assoc(b, [q] + (body + [q]), tail);
  }

  lemma {:induction false} OpensWith(p: Bytes, q: byte, current: Bytes)
    requires CString(p) && (q == 34 || q == 39)
    ensures CString([q] + p)
    ensures ScanToken([q] + p, Bare, current) == ScanToken(p, if q == 34 then Double else Single, current)
  {
    assert ([q] + p)[1..] == p;
  }

  lemma {:induction false} ClosesWith(p: Bytes, tail: Bytes)
    requires p != [] && p == [p[0]] + tail && CString(p) && (p[0] == 34 || p[0] == 39)
    requires tail != [] ==> tail[0] == 32 || 9 <= tail[0] <= 13
    ensures forall current :: ScanToken(p, if p[0] == 34 then Double else Single, current) == Token(tail, current)
  {
    assert p[1..] == tail && (tail != [] ==> At(p, 1) == tail[0]);
  }

  // ---- lines ----

  predicate Spaces(s: Bytes) { forall i :: 0 <= i < |s| ==> IsSpace(s[i]) }

  /** Words with the blanks behind each, and then p. */
  function Line(words: seq<(Word, Bytes)>, p: Bytes): Bytes
  {
    if words == [] then p else WordText(words[0].0) + (words[0].1 + Line(words[1..], p))
  }

  predicate LineOk(words: seq<(Word, Bytes)>, p: Bytes)
  {
    words == [] || (WordOk(words[0].0) && Spaces(words[0].1)
                    && Follows(words[0].0, words[0].1 + Line(words[1..], p)) && LineOk(words[1..], p))
  }

  function Meanings(words: seq<(Word, Bytes)>): (r: seq<Bytes>)
    requires forall i :: 0 <= i < |words| ==> WordOk(words[i].0)
    ensures |r| == |words| && forall i :: 0 <= i < |words| ==> r[i] == WordBytes(words[i].0)
  {
    seq(|words|, i requires 0 <= i < |words| => WordBytes(words[i].0))
  }

  function Joined(first: seq<Bytes>, rest: Option<seq<Bytes>>): Option<seq<Bytes>>
  {
    match rest
    case None => None
    case Some(more) => Some(first + more)
  }

  lemma {:induction false} AllWordsOk(words: seq<(Word, Bytes)>, p: Bytes)
    requires LineOk(words, p)
    ensures forall i :: 0 <= i < |words| ==> WordOk(words[i].0)
  {
    if words != [] {
      AllWordsOk(words[1..], p);
      assert forall i :: 1 <= i < |words| ==> words[i] == words[1..][i - 1];
    }
  }

  lemma {:induction false} BlanksSkipped(lead: Bytes, p: Bytes)
    requires Spaces(lead) && CString(p)
    ensures CString(lead + p) && SplitArgs(lead + p) == SplitArgs(p)
    decreases |lead|
  {
    if lead == [] {
      assert lead + p == p;
    } else {
      BlanksSkipped(lead[1..], p);
      assert (lead + p)[1..] == lead[1..] + p;
    }
  }

  lemma {:induction false} FirstWord(w: Word, tail: Bytes)
    requires WordOk(w) && Follows(w, tail) && CString(tail)
    ensures CString(WordText(w) + tail)
    ensures SplitArgs(WordText(w) + tail) == Joined([WordBytes(w)], SplitArgs(tail))
  {
    WordRead(w, tail);
    WordStarts(w);
    var p := WordText(w) + tail;
    assert p[0] == WordText(w)[0];
    if w.Plain? && tail != [] {
      BlanksSkipped([tail[0]], tail[1..]);
      assert [tail[0]] + tail[1..] == tail;
    }
  }

  lemma {:induction false} WordStarts(w: Word)
    requires WordOk(w)
    ensures WordText(w) != [] && !IsSpace(WordText(w)[0])
  {
    if w.b != [] {
      assert WordText(w)[0] == w.b[0];
    }
  }

  /** Words written down are read back, and what comes behind them is split as if it stood alone. */
  lemma {:induction false} SplitWords(lead: Bytes, words: seq<(Word, Bytes)>, p: Bytes)
    requires Spaces(lead) && LineOk(words, p) && CString(p)
    ensures CString(lead + Line(words, p)) && forall i :: 0 <= i < |words| ==> WordOk(words[i].0)
    ensures SplitArgs(lead + Line(words, p)) == Joined(Meanings(words), SplitArgs(p))
    decreases |words|
  {
    AllWordsOk(words, p);
    if words == [] {
      BlanksSkipped(lead, p);
      assert SplitArgs(p).Some? ==> [] + SplitArgs(p).value == SplitArgs(p).value;
    } else {
      SplitWords(words[0].1, words[1..], p);
      FirstWord(words[0].0, words[0].1 + Line(words[1..], p));
      BlanksSkipped(lead, Line(words, p));
      MeaningsFirst(words);
      JoinedTwice([WordBytes(words[0].0)], Meanings(words[1..]), SplitArgs(p));
    }
  }

  lemma {:induction false} MeaningsFirst(words: seq<(Word, Bytes)>)
    requires words != [] && forall i :: 0 <= i < |words| ==> WordOk(words[i].0)
    ensures forall i :: 0 <= i < |words[1..]| ==> WordOk(words[1..][i].0)
    ensures Meanings(words) == [WordBytes(words[0].0)] + Meanings(words[1..])
  {
  }

  lemma {:induction false} JoinedTwice(a: seq<Bytes>, b: seq<Bytes>, rest: Option<seq<Bytes>>)
    ensures Joined(a, Joined(b, rest)) == Joined(a + b, rest)
  {
    if rest.Some? { Assoc(a, b, rest.value); }
  }

  /** Arguments without quotes, zero bytes and blanks, one space between them, are the arguments of the line. */
  lemma {:induction false} BareArgs(args: seq<Bytes>)
    requires forall i :: 0 <= i < |args| ==> args[i] != []
    requires forall i, j :: 0 <= i < |args| && 0 <= j < |args[i]|
               ==> !IsSpace(args[i][j]) && args[i][j] !in {0, 34, 39}
    ensures CString(Join(args, [SPACE])) && SplitArgs(Join(args, [SPACE])) == Some(args)
    decreases |args|
  {
    if args != [] {
      assert forall j :: 0 <= j < |args[0]| ==> !IsSpace(args[0][j]);
      assert BareOk(args[0]);
      var tail := if |args| == 1 then [] else [SPACE] + Join(args[1..], [SPACE]);
      BareArgs(args[1..]);
      if |args| > 1 { BlankFirst(Join(args[1..], [SPACE])); }
      FirstWord(Plain(args[0]), tail);
      assert Join(args, [SPACE]) == args[0] + tail;
      assert [args[0]] + args[1..] == args;
    }
  }

  // ---- every line that is accepted is such a line ----

  /** The part that stands first, when the text is not at its closing quote. */
  function FirstPart(p: Bytes): Part
    requires p != []
  {
    if HexEscape(p) then Hex(p[2], p[3]) else if p[0] == 92 then Esc(At(p, 1)) else Raw(p[0])
  }

  /** A text without a closing quote, nothing or one byte long. */
  lemma {:induction false} LastIsBad(p: Bytes, current: Bytes)
    ensures CString(p) && |p| <= 1 && At(p, 0) != QUOTE ==> ScanToken(p, Double, current) == Bad
  {
    assert |p| == 1 ==> p[1..] == [];
  }

  lemma {:induction false} PartFound(p: Bytes, current: Bytes)
    requires CString(p) && ScanToken(p, Double, current).Token? && At(p, 0) != QUOTE
    ensures var n := |PartText(FirstPart(p))|;
            && n <= |p| && p == PartText(FirstPart(p)) + p[n..] && CString(p[n..])
            && PartOk(FirstPart(p), p[n..]) && PartOk(FirstPart(p), [])
            && ScanToken(p, Double, current) == ScanToken(p[n..], Double, current + [PartByte(FirstPart(p))])
  {
    LastIsBad(p, current);
  }

  lemma {:induction false} PrefixOk(d: Part, next: Bytes, tail: Bytes)
    requires PartOk(d, next + tail)
    ensures PartOk(d, next)
  {
    if |next| >= 2 { assert (next + tail)[0] == next[0] && (next + tail)[1] == next[1]; }
  }

  lemma {:induction false} DoubleParts(p: Bytes, current: Bytes) returns (parts: seq<Part>)
    requires CString(p) && ScanToken(p, Double, current).Token?
    ensures var t := ScanToken(p, Double, current);
            && BodyOk(parts) && p == BodyText(parts) + ([34] + t.rest) && t.current == current + BodyBytes(parts)
            && (t.rest == [] || IsSpace(t.rest[0]))
    decreases |p|
  {
    if At(p, 0) == QUOTE {
      parts := [];
      assert p == [] + ([34] + p[1..]) && current + [] == current;
    } else {
      PartFound(p, current);
      var d := FirstPart(p);
      var tail := p[|PartText(d)|..];
      var t := ScanToken(p, Double, current);
      var more := DoubleParts(tail, current + [PartByte(d)]);
      PrefixOk(d, BodyText(more), [34] + t.rest);
      parts := [d] + more;
      assert parts[1..] == more;
      Assoc(PartText(d), BodyText(more), [34] + t.rest);
      Assoc(current, [PartByte(d)], BodyBytes(more));
    }
  }

  lemma {:induction false} AposFound(p: Bytes, current: Bytes) returns (c: byte, tail: Bytes)
    requires CString(p) && ScanToken(p, Single, current).Token? && At(p, 0) != APOS
    ensures CString(tail) && |tail| < |p| && c != 0 && p == (if c == 39 then [92, 39] else [c]) + tail
    ensures c == 92 ==> At(tail, 0) != 39
    ensures ScanToken(p, Single, current) == ScanToken(tail, Single, current + [c])
  {
    if p[0] == 92 && At(p, 1) == 39 {
      c, tail := 39, p[2..];
    } else {
      c, tail := p[0], p[1..];
    }
  }

  lemma {:induction false} SingleText(p: Bytes, current: Bytes) returns (s: Bytes)
    requires CString(p) && ScanToken(p, Single, current).Token?
    ensures var t := ScanToken(p, Single, current);
            && SingleOk(s) && p == Apostrophed(s) + ([39] + t.rest) && t.current == current + s
            && (t.rest == [] || IsSpace(t.rest[0]))
    decreases |p|
  {
    if At(p, 0) == APOS {
      s := [];
      assert p == [] + ([39] + p[1..]) && current + [] == current;
    } else {
      var c, tail := AposFound(p, current);
      var t := ScanToken(p, Single, current);
      var more := SingleText(tail, current + [c]);
      s := [c] + more;
      assert s[1..] == more;
      assert more == [] ==> tail == [] + ([39] + t.rest);
      Assoc(if c == 39 then [92, 39] else [c], Apostrophed(more), [39] + t.rest);
      Assoc(current, [c], more);
    }
  }

  /** A word but for how it starts. */
  predicate LooseOk(w: Word)
  {
    && (forall i :: 0 <= i < |w.b| ==> w.b[i] !in {0, 9, 10, 13, 32, 34, 39})
    && match w
       case Plain(b) => true
       case InDouble(_, parts) => BodyOk(parts)
       case InSingle(_, s) => SingleOk(s)
  }

  function LooseBytes(w: Word): Bytes
    requires LooseOk(w)
  {
    match w
    case Plain(b) => b
    case InDouble(b, parts) => b + BodyBytes(parts)
    case InSingle(b, s) => b + s
  }

  lemma {:induction false} BareWord(p: Bytes, current: Bytes) returns (w: Word, tail: Bytes)
    requires CString(p) && ScanToken(p, Bare, current).Token?
    ensures var t := ScanToken(p, Bare, current);
            && LooseOk(w) && p == WordText(w) + tail && Follows(w, tail) && t.current == current + LooseBytes(w)
            && t.rest == if w.Plain? && tail != [] then tail[1..] else tail
    decreases |p|
  {
    var t := ScanToken(p, Bare, current);
    if p == [] || p[0] in {9, 10, 13, 32} {
      w, tail := Plain([]), p;
      assert [] + p == p && current + [] == current;
    } else if p[0] == QUOTE {
      var parts := DoubleParts(p[1..], current);
      w, tail := InDouble([], parts), t.rest;
      assert p == [34] + p[1..];
      Opened([], 34, BodyText(parts), tail);
      assert [] + ([34] + (BodyText(parts) + ([34] + tail))) == p;
      assert [] + BodyBytes(parts) == BodyBytes(parts);
    } else if p[0] == APOS {
      var s := SingleText(p[1..], current);
      w, tail := InSingle([], s), t.rest;
      assert p == [39] + p[1..];
      Opened([], 39, Apostrophed(s), tail);
      assert [] + ([39] + (Apostrophed(s) + ([39] + tail))) == p;
      assert [] + s == s;
    } else {
      var v: Word;
      v, tail := BareWord(p[1..], current + [p[0]]);
      w := Longer(p[0], v);
      LongerIs(p[0], v);
      assert p == [p[0]] + p[1..];
      Assoc([p[0]], WordText(v), tail);
      Assoc(current, [p[0]], LooseBytes(v));
    }
  }

  function Longer(c: byte, w: Word): Word { w.(b := [c] + w.b) }

  lemma {:induction false} LongerIs(c: byte, w: Word)
    requires LooseOk(w) && c !in {0, 9, 10, 13, 32, 34, 39}
    ensures LooseOk(Longer(c, w)) && WordText(Longer(c, w)) == [c] + WordText(w)
    ensures LooseBytes(Longer(c, w)) == [c] + LooseBytes(w)
  {
    match w
    case Plain(b) =>
    case InDouble(b, parts) =>
      Assoc([c], b, [34] + (BodyText(parts) + [34]));
      Assoc([c], b, BodyBytes(parts));
    case InSingle(b, s) =>
      Assoc([c], b, [39] + (Apostrophed(s) + [39]));
      Assoc([c], b, s);
  }

  lemma {:induction false} LooseIsWord(w: Word, tail: Bytes)
    requires LooseOk(w) && WordText(w) + tail != [] && !IsSpace((WordText(w) + tail)[0]) && Follows(w, tail)
    ensures WordOk(w) && WordBytes(w) == LooseBytes(w)
  {
    if w.b != [] {
      assert (WordText(w) + tail)[0] == w.b[0];
    } else {
      assert w.Plain? ==> WordText(w) + tail == tail;
    }
  }

  lemma {:induction false} Skipped(p: Bytes) returns (lead: Bytes)
    ensures Spaces(lead) && p == lead + SkipBlanks(p)
    decreases |p|
  {
    if p != [] && IsSpace(p[0]) {
      var more := Skipped(p[1..]);
      lead := [p[0]] + more;
      assert p == [p[0]] + p[1..];
      Assoc([p[0]], more, SkipBlanks(p));
    } else {
      lead := [];
      assert [] + p == p;
    }
  }

  lemma {:induction false} Accepted(p: Bytes) returns (lead: Bytes, words: seq<(Word, Bytes)>)
    requires CString(p) && SplitArgs(p).Some?
    ensures Spaces(lead) && LineOk(words, []) && p == lead + Line(words, [])
    decreases |p|
  {
    var q := SkipBlanks(p);
    lead := Skipped(p);
    if q == [] {
      words := [];
    } else {
      ScanShorter(q, Bare, []);
      var w, tail := BareWord(q, []);
      LooseIsWord(w, tail);
      var more, others := Accepted(ScanToken(q, Bare, []).rest);
      words := WordBefore(w, tail, more, others);
    }
  }

  /** A word in front of others that have been found. */
  lemma {:induction false} WordBefore(w: Word, tail: Bytes, more: Bytes, others: seq<(Word, Bytes)>)
    returns (words: seq<(Word, Bytes)>)
    requires WordOk(w) && Follows(w, tail) && Spaces(more) && LineOk(others, [])
    requires (if w.Plain? && tail != [] then tail[1..] else tail) == more + Line(others, [])
    ensures LineOk(words, []) && Line(words, []) == WordText(w) + tail
  {
    var gap := if w.Plain? && tail != [] then [tail[0]] + more else more;
    assert tail == gap + Line(others, []) by {
      if w.Plain? && tail != [] {
        assert tail == [tail[0]] + tail[1..];
        Assoc([tail[0]], more, Line(others, []));
      }
    }
    words := [(w, gap)] + others;
    assert words[1..] == others;
    Gap(w, tail, more);
  }

  lemma {:induction false} Gap(w: Word, tail: Bytes, more: Bytes)
    requires Follows(w, tail) && Spaces(more)
    ensures Spaces(if w.Plain? && tail != [] then [tail[0]] + more else more)
  {
  }

  ghost predicate Reads(p: Bytes, lead: Bytes, words: seq<(Word, Bytes)>, args: seq<Bytes>)
  {
    && Spaces(lead) && LineOk(words, []) && p == lead + Line(words, [])
    && |words| == |args| && forall i :: 0 <= i < |args| ==> WordOk(words[i].0) && args[i] == WordBytes(words[i].0)
  }

  /** A line splits into these arguments exactly when it is written as words that stand for them; every other
      line is refused. */
  lemma {:induction false} SplitExact(p: Bytes, args: seq<Bytes>)
    requires CString(p)
    ensures SplitArgs(p) == Some(args) <==> exists lead, words :: Reads(p, lead, words, args)
  {
    if SplitArgs(p).Some? {
      var lead, words := Accepted(p);
      SplitWords(lead, words, []);
      assert Meanings(words) + [] == Meanings(words);
      if SplitArgs(p) == Some(args) {
        assert Reads(p, lead, words, args);
      }
    }
    forall lead, words | Reads(p, lead, words, args) ensures SplitArgs(p) == Some(args) {
      SplitWords(lead, words, []);
      assert Meanings(words) + [] == args;
    }
  }

  // ---- lines that are refused ----

  /** Whatever good words come first, a line is refused when the rest alone would be. */
  lemma {:induction false} RefusedAfter(lead: Bytes, words: seq<(Word, Bytes)>, p: Bytes)
    requires Spaces(lead) && LineOk(words, p) && CString(p) && SplitArgs(p) == None
    ensures CString(lead + Line(words, p)) && SplitArgs(lead + Line(words, p)) == None
  {
    SplitWords(lead, words, p);
  }

  /** A word that is bad from its quote on: q the quote, body what follows it. */
  lemma {:induction false} BadWord(b: Bytes, q: byte, body: Bytes)
    requires BareOk(b) && CString(body) && (q == 34 || q == 39)
    requires ScanToken(body, if q == 34 then Double else Single, b) == Bad
    ensures CString(b + ([q] + body)) && SplitArgs(b + ([q] + body)) == None
  {
    BareRead(b, [q] + body, []);
    assert [] + b == b;
    OpensWith(body, q, b);
    var p := b + ([q] + body);
    assert p[0] == if b == [] then q else b[0];
  }

  /** A double quote that is not closed, be it that a last backslash follows the text. */
  lemma {:induction false} UnclosedDouble(b: Bytes, parts: seq<Part>, end: Bytes)
    requires BareOk(b) && BodyOk(parts) && (end == [] || end == [92])
    ensures var p := b + ([34] + (BodyText(parts) + end)); CString(p) && SplitArgs(p) == None
  {
    BodyRead(parts, end, b);
    LastIsBad(end, b + BodyBytes(parts));
    BadWord(b, 34, BodyText(parts) + end);
  }

  lemma {:induction false} UnclosedSingle(b: Bytes, s: Bytes)
    requires BareOk(b) && CString(s)
    ensures var p := b + ([39] + Apostrophed(s)); CString(p) && SplitArgs(p) == None
  {
    SingleRead(s, [], b);
    assert Apostrophed(s) + [] == Apostrophed(s);
    BadWord(b, 39, Apostrophed(s));
  }

  /** Anything but a blank right behind a closing quote. */
  lemma {:induction false} TextBehindDouble(b: Bytes, parts: seq<Part>, tail: Bytes)
    requires BareOk(b) && BodyOk(parts) && CString(tail) && tail != [] && !IsSpace(tail[0])
    ensures var p := b + ([34] + (BodyText(parts) + ([34] + tail))); CString(p) && SplitArgs(p) == None
  {
    BodyRead(parts, [34] + tail, b);
    BadWord(b, 34, BodyText(parts) + ([34] + tail));
  }

  lemma {:induction false} TextBehindSingle(b: Bytes, s: Bytes, tail: Bytes)
    requires BareOk(b) && SingleOk(s) && CString(tail) && tail != [] && !IsSpace(tail[0])
    ensures var p := b + ([39] + (Apostrophed(s) + ([39] + tail))); CString(p) && SplitArgs(p) == None
  {
    SingleRead(s, [39] + tail, b);
    BadWord(b, 39, Apostrophed(s) + ([39] + tail));
  }

  /** Text in single quotes can be written at all exactly when it does not end in a backslash. */
  lemma {:induction false} SingleExact(s: Bytes)
    requires CString(s)
    ensures var p := [39] + (Apostrophed(s) + [39]);
            CString(p) && SplitArgs(p) == if SingleOk(s) then Some([s]) else None
  {
    if SingleOk(s) {
      FirstWord(InSingle([], s), []);
      assert WordText(InSingle([], s)) + [] == [39] + (Apostrophed(s) + [39]);
      assert [] + s == s && [s] + [] == [s];
    } else {
      var n := |s| - 1;
      SlashTakesQuote(s[..n]);
      assert s == s[..n] + [92];
      UnclosedSingle([], s[..n] + [39]);
      assert [] + ([39] + Apostrophed(s[..n] + [39])) == [39] + (Apostrophed(s) + [39]);
    }
  }

  lemma {:induction false} SlashTakesQuote(s: Bytes)
    ensures Apostrophed(s + [92]) + [39] == Apostrophed(s + [39])
  {
    if s == [] {
      assert [92][1..] == [] && [39][1..] == [];
    } else {
      SlashTakesQuote(s[1..]);
      assert (s + [92])[1..] == s[1..] + [92] && (s + [39])[1..] == s[1..] + [39];
    }
  }

  // ---- what sdscatrepr writes ----

  const DIGITS: string := "0123456789abcdef"

  /** The form of every byte: two letters for those with a name, itself when printable, else \x and two digits. */
  lemma {:induction false} EscapeTable(c: byte)
    ensures Escape(7) == [92, 97] && Escape(8) == [92, 98] && Escape(9) == [92, 116] && Escape(10) == [92, 110]
    ensures Escape(13) == [92, 114] && Escape(34) == [92, 34] && Escape(92) == [92, 92]
    ensures c !in {34, 92} && 32 <= c <= 126 ==> Escape(c) == [c]
    ensures (c < 32 || 126 < c) && c !in {7, 8, 9, 10, 13}
            ==> Escape(c) == [92, 120, DIGITS[c / 16] as int, DIGITS[c % 16] as int]
  {
    Digit(c / 16);
    Digit(c % 16);
  }

  lemma {:induction false} Digit(n: int)
    requires 0 <= n < 16
    ensures HexDigit(n) == DIGITS[n] as int
  {
  }

  /** Only printable bytes are written, and a text of such bytes without backslash and double quote is only quoted. */
  lemma {:induction false} ReprPrintable(s: Bytes)
    ensures forall i :: 0 <= i < |Repr(s)| ==> IsPrint(Repr(s)[i])
    ensures (forall i :: 0 <= i < |s| ==> 32 <= s[i] <= 126 && s[i] !in {34, 92}) ==> Repr(s) == [34] + s + [34]
  {
    EscapedPrintable(s);
  }

  lemma {:induction false} EscapePrintable(c: byte)
    ensures forall i :: 0 <= i < |Escape(c)| ==> IsPrint(Escape(c)[i])
  {
  }

  lemma {:induction false} EscapedPrintable(s: Bytes)
    ensures forall i :: 0 <= i < |Escaped(s)| ==> IsPrint(Escaped(s)[i])
    ensures (forall i :: 0 <= i < |s| ==> 32 <= s[i] <= 126 && s[i] !in {34, 92}) ==> Escaped(s) == s
  {
    if s != [] {
      EscapedPrintable(s[1..]);
      EscapeTable(s[0]);
      EscapePrintable(s[0]);
      assert s == [s[0]] + s[1..];
    }
  }
}
