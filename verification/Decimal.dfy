/** Decimal text of 64-bit integers: printing, counting digits, and the strict parser of the reply
    reader. */
module Decimal {
  import opened U32
  import opened Options

  const U64_MAX: int := 0xFFFF_FFFF_FFFF_FFFF
  const I64_MAX: int := 0x7FFF_FFFF_FFFF_FFFF
  const I64_MIN: int := -0x8000_0000_0000_0000

  const ZERO: byte := 48
  const MINUS: byte := 45

  predicate IsDigit(b: byte) { ZERO <= b <= 57 }

  /** %u / %zu */
  function Digits(n: nat): (s: seq<byte>)
    ensures s != []
  {
    if n < 10 then [ZERO + n] else Digits(n / 10) + [ZERO + n % 10]
  }

  /** %d / %lld */
  function Print(v: int): seq<byte>
  {
    if v < 0 then [MINUS] + Digits(-v) else Digits(v)
  }

  /** The number a string of digits stands for. */
  function Num(s: seq<byte>): int
  {
    if s == [] then 0 else 10 * Num(s[..|s| - 1]) + (s[|s| - 1] - ZERO)
  }

  predicate AllDigits(s: seq<byte>) { forall i :: 0 <= i < |s| ==> IsDigit(s[i]) }

  /** No sign, no leading zero. */
  predicate Canonical(s: seq<byte>) { s != [] && AllDigits(s) && (s[0] == ZERO ==> |s| == 1) }

  lemma {:induction false} DigitsCanonical(n: nat)
    ensures Canonical(Digits(n)) && Num(Digits(n)) == n && (n > 0 ==> Digits(n)[0] != ZERO)
  {
    if n >= 10 {
      DigitsCanonical(n / 10);
      var s := Digits(n / 10);
      assert Digits(n)[..|Digits(n)| - 1] == s;
      assert Digits(n)[0] == s[0];
    } else {
      assert Digits(n)[..0] == [];
    }
  }

  lemma {:induction false} NumNonNegative(s: seq<byte>)
    requires AllDigits(s)
    ensures Num(s) >= 0 && (s != [] && s[0] != ZERO ==> Num(s) > 0)
  {
    if s != [] {
      NumNonNegative(s[..|s| - 1]);
    }
  }

  lemma {:induction false} DigitsOfNum(s: seq<byte>)
    requires Canonical(s)
    ensures Num(s) >= 0 && Digits(Num(s)) == s
  {
    var n := |s| - 1;
    NumNonNegative(s);
    if n == 0 {
      assert s[..0] == [] && s == [s[0]];
    } else {
      assert Canonical(s[..n]);
      NumNonNegative(s[..n]);
      DigitsOfNum(s[..n]);
      assert s == s[..n] + [s[n]];
    }
  }

  /** Two decimal texts are equal only if they are of the same number. */
  lemma PrintInjective(v: int, w: int)
    requires Print(v) == Print(w)
    ensures v == w
  {
    DigitsCanonical(if v < 0 then -v else v);
    DigitsCanonical(if w < 0 then -w else w);
    if v < 0 {
      assert Print(v)[1..] == Digits(-v);
    }
    if w < 0 {
      assert Print(w)[1..] == Digits(-w);
    }
  }

  /** string2ll: the number, if the string is exactly the decimal text of a 64-bit signed one. */
  function ParseLL(s: seq<byte>): Option<int>
  {
    if s == [] then None
    else if s[0] == MINUS then
      if Canonical(s[1..]) && s[1] != ZERO && Num(s[1..]) <= -I64_MIN then Some(-Num(s[1..])) else None
    else
      if Canonical(s) && Num(s) <= I64_MAX then Some(Num(s)) else None
  }

  /** The strictness its documentation relies on: what is accepted is what printing gives back. */
  lemma ParseExact(s: seq<byte>, v: int)
    ensures ParseLL(s) == Some(v) <==> I64_MIN <= v <= I64_MAX && s == Print(v)
  {
    if s != [] && s[0] == MINUS {
      ParseNegative(s, v);
    } else {
      ParsePlain(s, v);
    }
  }

  lemma {:induction false} ParseNegative(s: seq<byte>, v: int)
    requires s != [] && s[0] == MINUS
    ensures ParseLL(s) == Some(v) <==> I64_MIN <= v <= I64_MAX && s == Print(v)
  {
    PrintNegative(s, v);
    NegativeText(s[1..], v);
  }

  lemma {:induction false} NegativeText(t: seq<byte>, v: int)
    ensures Canonical(t) && t[0] != ZERO && v == -Num(t) <==> v < 0 && t == Digits(-v)
  {
    if Canonical(t) && t[0] != ZERO && v == -Num(t) {
      DigitsOfNum(t);
      NumNonNegative(t);
    }
    if v < 0 && t == Digits(-v) {
      DigitsCanonical(-v);
    }
  }

  lemma {:induction false} PrintNegative(s: seq<byte>, v: int)
    requires s != [] && s[0] == MINUS
    ensures s == Print(v) <==> v < 0 && s[1..] == Digits(-v)
  {
    assert s == [MINUS] + s[1..];
    if v >= 0 {
      DigitsCanonical(v);
    }
  }

  lemma ParsePlain(s: seq<byte>, v: int)
    requires s != [] ==> s[0] != MINUS
    ensures ParseLL(s) == Some(v) <==> I64_MIN <= v <= I64_MAX && s == Print(v)
  {
    if s != [] && Canonical(s) {
      DigitsOfNum(s);
    }
    if s == Print(v) {
      DigitsCanonical(if v < 0 then -v else v);
    }
  }

  /** string2ll as the code scans it. */
  method String2LL(s: seq<byte>) returns (r: Option<int>)
    ensures r == ParseLL(s)
  {
    if |s| == 0 {
      return None;
    }
    if |s| == 1 && s[0] == ZERO {
      assert s[..|s| - 1] == [];
      assert Num(s) == 0 && Canonical(s);
      return Some(0);
    }
    var negative, p := false, 0;
    if s[0] == MINUS {
      negative, p := true, 1;
      if |s| == 1 {
        return None;
      }
    }
    if !(49 <= s[p] <= 57) {
      return None;
    }
    ghost var d := s[p..];
    ghost var from := p;
    var v := s[p] - ZERO;
    p := p + 1;
    assert d[..1][..0] == [];
    while p < |s| && IsDigit(s[p])
      invariant from < p <= |s| && d == s[from..]
      invariant AllDigits(d[..p - from]) && v == Num(d[..p - from]) && 0 <= v <= U64_MAX
    {
      ghost var n := p - from;
      assert d[..n + 1][..n] == d[..n] && d[n] == s[p];
      NumGrows(d, n + 1);
      if v > U64_MAX / 10 {
        return None;
      }
      v := v * 10;
      if v > U64_MAX - (s[p] - ZERO) {
        return None;
      }
      v := v + (s[p] - ZERO);
      p := p + 1;
    }
    if p < |s| {
      assert d[p - from] == s[p];
      return None;
    }
    assert d[..p - from] == d;
    if negative {
      if v > -I64_MIN {
        return None;
      }
      return Some(-v);
    } else {
      if v > I64_MAX {
        return None;
      }
      return Some(v);
    }
  }

  /** A longer string of digits is a larger number. */
  lemma {:induction false} NumGrows(s: seq<byte>, n: nat)
    requires n <= |s| && AllDigits(s[..n]) && n > 0 && s[0] != ZERO
    ensures AllDigits(s) ==> Num(s) >= Num(s[..n])
    decreases |s|
  {
    if n == |s| {
      assert s[..n] == s;
    } else if AllDigits(s) {
      var m := |s| - 1;
      assert s[..m][..n] == s[..n];
      NumGrows(s[..m], n);
      NumNonNegative(s[..n]);
    }
  }

  /** countDigits: the length %u prints. */
  method CountDigits(v0: nat) returns (result: nat)
    requires v0 <= U64_MAX
    ensures result == |Digits(v0)|
  {
    var v := v0;
    result := 1;
    while true
      invariant result + |Digits(v)| == 1 + |Digits(v0)|
      decreases v
    {
      FewDigits(v);
      if v < 10 { return result; }
      if v < 100 { return result + 1; }
      if v < 1000 { return result + 2; }
      if v < 10000 { return result + 3; }
      FourDigits(v);
      v := v / 10000;
      result := result + 4;
    }
  }

  lemma {:induction false} FewDigits(v: nat)
    ensures v < 10000 ==> |Digits(v)| == if v < 10 then 1 else if v < 100 then 2 else if v < 1000 then 3 else 4
  {
    if 10 <= v < 10000 {
      assert |Digits(v)| == |Digits(v / 10)| + 1;
      if v >= 100 {
        assert |Digits(v / 10)| == |Digits(v / 10 / 10)| + 1;
      }
    }
  }

  lemma {:induction false} FourDigits(v: nat)
    requires v >= 10000
    ensures |Digits(v)| == |Digits(v / 10000)| + 4
  {
    assert v / 10 / 10 / 10 / 10 == v / 10000;
    assert |Digits(v)| == |Digits(v / 10)| + 1;
    assert |Digits(v / 10)| == |Digits(v / 10 / 10)| + 1;
    assert |Digits(v / 10 / 10)| == |Digits(v / 10 / 10 / 10)| + 1;
  }
}
