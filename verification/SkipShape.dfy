/** A skip list's shape: the heights of its nodes in order, and which node is next on a level. */
module SkipShape {

  /** The first node at or after b that is taller than i, or the end. */
  function NextFrom(hs: seq<nat>, b: nat, i: nat): (r: nat)
    requires b <= |hs|
    ensures b <= r <= |hs|
    decreases |hs| - b
  {
    if b == |hs| || hs[b] > i then b else NextFrom(hs, b + 1, i)
  }

  lemma {:induction false} NextIsFirst(hs: seq<nat>, b: nat, i: nat)
    requires b <= |hs|
    ensures var r := NextFrom(hs, b, i); (r < |hs| ==> hs[r] > i) && forall c :: b <= c < r ==> hs[c] <= i
    decreases |hs| - b
  {
    if b < |hs| && hs[b] <= i {
      NextIsFirst(hs, b + 1, i);
    }
  }

  lemma {:induction false} NextIs(hs: seq<nat>, b: nat, i: nat, r: nat)
    requires b <= r <= |hs| && (r < |hs| ==> hs[r] > i) && (forall c :: b <= c < r ==> hs[c] <= i)
    ensures NextFrom(hs, b, i) == r
    decreases r - b
  {
    if b < r {
      NextIs(hs, b + 1, i, r);
    }
  }

  /** The last node before p that is taller than i, or -1 for the header. */
  function PrevOf(hs: seq<nat>, p: nat, i: nat): (r: int)
    requires p <= |hs|
    ensures -1 <= r < p && (r >= 0 ==> hs[r] > i)
  {
    if p == 0 then -1 else if hs[p - 1] > i then p - 1 else PrevOf(hs, p - 1, i)
  }

  lemma {:induction false} PrevIsLast(hs: seq<nat>, p: nat, i: nat)
    requires p <= |hs|
    ensures forall c :: PrevOf(hs, p, i) < c < p ==> hs[c] <= i
  {
    if p > 0 && hs[p - 1] <= i {
      PrevIsLast(hs, p - 1, i);
    }
  }

  function Inserted<T>(s: seq<T>, p: nat, x: T): (r: seq<T>)
    requires p <= |s|
    ensures |r| == |s| + 1 && r[p] == x
    ensures (forall k :: 0 <= k < p ==> r[k] == s[k]) && (forall k :: p < k < |r| ==> r[k] == s[k - 1])
  {
    seq(|s| + 1, k requires 0 <= k <= |s| => if k < p then s[k] else if k == p then x else s[k - 1])
  }

  function Removed<T>(s: seq<T>, p: nat): (r: seq<T>)
    requires p < |s|
    ensures |r| == |s| - 1
    ensures (forall k :: 0 <= k < p ==> r[k] == s[k]) && (forall k :: p <= k < |r| ==> r[k] == s[k + 1])
  {
    seq(|s| - 1, k requires 0 <= k < |s| - 1 => if k < p then s[k] else s[k + 1])
  }

  /** Next nodes after an insertion at p: at or behind p they move up one place. */
  lemma {:induction false} NextBehind(hs: seq<nat>, p: nat, h: nat, i: nat, a: nat)
    requires p <= a <= |hs|
    ensures NextFrom(Inserted(hs, p, h), a + 1, i) == NextFrom(hs, a, i) + 1
    decreases |hs| - a
  {
    var hs' := Inserted(hs, p, h);
    if a < |hs| {
      assert hs'[a + 1] == hs[a];
      NextBehind(hs, p, h, i, a + 1);
    }
  }

  /** Before p only a search that reaches p is affected. */
  lemma {:induction false} NextBefore(hs: seq<nat>, p: nat, h: nat, i: nat, a: nat)
    requires a < p <= |hs|
    ensures NextFrom(Inserted(hs, p, h), a, i)
            == if NextFrom(hs, a, i) < p then NextFrom(hs, a, i) else if h > i then p else NextFrom(hs, a, i) + 1
    decreases p - a
  {
    var hs' := Inserted(hs, p, h);
    assert hs'[a] == hs[a];
    if a + 1 < p {
      NextBefore(hs, p, h, i, a + 1);
    } else {
      NextAtPlace(hs, p, h, i);
    }
  }

  /** Next nodes after node p is removed: behind p they move down. */
  lemma {:induction false} NextAfterGone(hs: seq<nat>, p: nat, i: nat, a: nat)
    requires p <= a < |hs|
    ensures NextFrom(Removed(hs, p), a, i) == NextFrom(hs, a + 1, i) - 1
    decreases |hs| - a
  {
    if a + 1 < |hs| {
      assert Removed(hs, p)[a] == hs[a + 1];
      NextAfterGone(hs, p, i, a + 1);
    }
  }

  lemma {:induction false} NextBeforeGone(hs: seq<nat>, p: nat, i: nat, a: nat)
    requires a <= p < |hs|
    ensures NextFrom(Removed(hs, p), a, i)
            == if NextFrom(hs, a, i) < p then NextFrom(hs, a, i) else NextFrom(hs, p + 1, i) - 1
    decreases p - a
  {
    if a < p {
      assert Removed(hs, p)[a] == hs[a];
      NextBeforeGone(hs, p, i, a + 1);
    } else {
      NextAfterGone(hs, p, i, p);
    }
  }

  /** And at p itself the new node comes first. */
  lemma {:induction false} NextAtPlace(hs: seq<nat>, p: nat, h: nat, i: nat)
    requires p <= |hs|
    ensures NextFrom(Inserted(hs, p, h), p, i) == if h > i then p else NextFrom(hs, p, i) + 1
  {
    assert Inserted(hs, p, h)[p] == h;
    NextBehind(hs, p, h, i, p);
  }

  /** Before p, the node whose next is at or behind p is the last tall one, and then it is the first
      tall one from p on. */
  lemma {:induction false} PrevNext(hs: seq<nat>, p: nat, i: nat, a: int)
    requires p <= |hs| && -1 <= a < p && (a >= 0 ==> hs[a] > i)
    ensures NextFrom(hs, a + 1, i) >= p <==> a == PrevOf(hs, p, i)
    ensures NextFrom(hs, a + 1, i) >= p ==> NextFrom(hs, a + 1, i) == NextFrom(hs, p, i)
  {
    NextIsFirst(hs, a + 1, i);
    PrevIsLast(hs, p, i);
    if NextFrom(hs, a + 1, i) >= p {
      NextIs(hs, p, i, NextFrom(hs, a + 1, i));
    }
  }

  /** A node's place after an insertion at p, and after a removal there. */
  function Up(a: int, p: nat): int { if a < p then a else a + 1 }
  function Down(a: int, p: nat): int { if a < p then a else a - 1 }

  /** Where the next node of node a is after an insertion at p. */
  lemma NextUp(hs: seq<nat>, p: nat, h: nat, i: nat, a: int)
    requires p <= |hs| && -1 <= a < |hs| && (a >= 0 ==> hs[a] > i)
    ensures NextFrom(Inserted(hs, p, h), Up(a, p) + 1, i)
            == if a == PrevOf(hs, p, i) && i < h then p else Up(NextFrom(hs, a + 1, i), p)
  {
    if a >= p {
      NextBehind(hs, p, h, i, a + 1);
    } else {
      PrevNext(hs, p, i, a);
      if a + 1 < p {
        NextBefore(hs, p, h, i, a + 1);
      } else {
        NextAtPlace(hs, p, h, i);
      }
    }
  }

  /** Where it is after node p, not a itself, was removed. */
  lemma NextDown(hs: seq<nat>, p: nat, i: nat, a: int)
    requires p < |hs| && -1 <= a < |hs| && a != p && (a >= 0 ==> hs[a] > i)
    ensures NextFrom(Removed(hs, p), Down(a, p) + 1, i)
            == Down(if NextFrom(hs, a + 1, i) == p then NextFrom(hs, p + 1, i) else NextFrom(hs, a + 1, i), p)
    ensures NextFrom(hs, a + 1, i) == p <==> a == PrevOf(hs, p, i) && hs[p] > i
  {
    if a < p {
      NextBeforeGone(hs, p, i, a + 1);
    } else {
      NextAfterGone(hs, p, i, a);
    }
    var n := NextFrom(hs, a + 1, i);
    if a < p {
      PrevNext(hs, p, i, a);
      if n > p {
        NextIsFirst(hs, a + 1, i);
        NextIs(hs, p + 1, i, n);
      }
    }
  }

  /** Where the next node of the new one is: behind it, where its predecessor's was. */
  lemma {:induction false} NextOfNew(hs: seq<nat>, p: nat, h: nat, i: nat)
    requires p <= |hs|
    ensures NextFrom(Inserted(hs, p, h), p + 1, i) == Up(NextFrom(hs, PrevOf(hs, p, i) + 1, i), p)
  {
    PrevNext(hs, p, i, PrevOf(hs, p, i));
    NextBehind(hs, p, h, i, p);
  }
}
