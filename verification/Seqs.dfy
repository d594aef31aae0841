/** Sequences of any kind. */
module Seqs {
  function Concat<T>(parts: seq<seq<T>>): seq<T>
  {
    if parts == [] then [] else parts[0] + Concat(parts[1..])
  }

  lemma Assoc<T>(a: seq<T>, b: seq<T>, c: seq<T>)
    ensures a + (b + c) == a + b + c
  {
  }

  lemma {:induction false} ConcatSnoc<T>(parts: seq<seq<T>>, p: seq<T>)
    ensures Concat(parts + [p]) == Concat(parts) + p
  {
    if parts != [] {
      assert (parts + [p])[1..] == parts[1..] + [p];
      ConcatSnoc(parts[1..], p);
      Assoc(parts[0], Concat(parts[1..]), p);
    }
  }

  lemma {:induction false} ConcatSplit<T>(parts: seq<seq<T>>, n: nat)
    requires n <= |parts|
    ensures Concat(parts) == Concat(parts[..n]) + Concat(parts[n..])
    decreases n
  {
    if n > 0 {
      ConcatSplit(parts[1..], n - 1);
      assert parts[..n][1..] == parts[1..][..n - 1] && parts[1..][n - 1..] == parts[n..];
      Assoc(parts[0], Concat(parts[1..][..n - 1]), Concat(parts[n..]));
    } else {
      assert parts[0..] == parts && [] + Concat(parts) == Concat(parts);
    }
  }

  lemma {:induction false} ConcatGrown<T>(a: seq<seq<T>>, b: seq<seq<T>>, n: nat, x: T)
    requires n < |a| == |b| && forall i :: 0 <= i < |a| ==> b[i] == if i == n then a[i] + [x] else a[i]
    ensures Concat(b) == Concat(a[..n + 1]) + [x] + Concat(a[n + 1..])
  {
    ConcatSplit(b, n + 1);
    assert b[n + 1..] == a[n + 1..];
    assert b[..n + 1] == a[..n] + [a[n] + [x]] && a[..n + 1] == a[..n] + [a[n]];
    ConcatSnoc(a[..n], a[n] + [x]);
    ConcatSnoc(a[..n], a[n]);
    Assoc(Concat(a[..n]), a[n], [x]);
  }

  lemma {:induction false} ConcatNone<T>(parts: seq<seq<T>>)
    requires forall i :: 0 <= i < |parts| ==> parts[i] == []
    ensures Concat(parts) == []
  {
    if parts != [] { ConcatNone(parts[1..]); }
  }

  lemma {:induction false} ConcatIn<T>(parts: seq<seq<T>>, x: T) returns (i: nat)
    requires x in Concat(parts)
    ensures i < |parts| && x in parts[i]
  {
    i := 0;
    if x !in parts[0] {
      i := ConcatIn(parts[1..], x);
      i := i + 1;
    }
  }
}
