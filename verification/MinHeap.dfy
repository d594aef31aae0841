/** The timer min-heap: an array of entries that know their own index, kept in order by moving a
    hole up or down. */
module MinHeap {
  import opened U32
  import opened Options

  const NOWHERE: u32 := 0xFFFF_FFFF

  class TimerEntry {
    var time: u32
    var idx: u32

    /** min_heap_elem_init_ */
    constructor (time: u32)
      ensures this.time == time && idx == NOWHERE
    {
      this.time := time;
      idx := NOWHERE;
    }
  }

  function Parent(i: nat): nat
    requires i > 0
  {
    (i - 1) / 2
  }

  // ---- order, on the times alone ----

  ghost predicate Heap(t: seq<u32>)
  {
    forall i :: 1 <= i < |t| ==> t[Parent(i)] <= t[i]
  }

  /** In order but for the entry at the hole, which may be smaller than those above it. */
  ghost predicate LowAt(t: seq<u32>, hole: nat)
  {
    && (forall i :: 1 <= i < |t| && i != hole ==> t[Parent(i)] <= t[i])
    && (forall i :: 1 <= i < |t| && Parent(i) == hole && hole > 0 && hole < |t| ==> t[Parent(hole)] <= t[i])
  }

  /** In order but for the entry at the hole, which may be greater than those below it. */
  ghost predicate HighAt(t: seq<u32>, hole: nat)
  {
    && (forall i :: 1 <= i < |t| && Parent(i) != hole ==> t[Parent(i)] <= t[i])
    && (forall i :: 1 <= i < |t| && Parent(i) == hole && hole > 0 ==> t[Parent(hole)] <= t[i])
  }

  function Swap<T>(s: seq<T>, i: nat, j: nat): (r: seq<T>)
    requires i < |s| && j < |s|
    ensures |r| == |s|
  {
    s[i := s[j]][j := s[i]]
  }

  lemma SwapSame<T>(s: seq<T>, i: nat, j: nat)
    requires i < |s| && j < |s|
    ensures multiset(Swap(s, i, j)) == multiset(s)
  {
    var m := s[i := s[j]];
    assert multiset(m) == multiset(s) - multiset{s[i]} + multiset{s[j]};
    assert multiset(m[j := s[i]]) == multiset(m) - multiset{m[j]} + multiset{s[i]};
  }

  /** One step up: the entry changes places with its greater parent. */
  lemma StepUp(t: seq<u32>, hole: nat)
    requires 0 < hole < |t| && LowAt(t, hole) && t[Parent(hole)] > t[hole]
    ensures LowAt(Swap(t, hole, Parent(hole)), Parent(hole))
  {
    var p := Parent(hole);
    var t' := Swap(t, hole, p);
    forall i | 1 <= i < |t| && i != p
      ensures t'[Parent(i)] <= t'[i]
    {
      if Parent(i) == hole {
        assert t[p] <= t[i];
      } else if Parent(i) == p && i != hole {
        assert t[p] <= t[i];
      }
    }
    forall i | 1 <= i < |t| && Parent(i) == p && p > 0
      ensures t'[Parent(p)] <= t'[i]
    {
      assert t[Parent(p)] <= t[p];
      if i != hole { assert t[p] <= t[i]; }
    }
  }

  /** Where no parent is greater, the order is whole. */
  lemma TopUp(t: seq<u32>, hole: nat)
    requires hole < |t| && LowAt(t, hole) && (hole > 0 ==> t[Parent(hole)] <= t[hole])
    ensures Heap(t)
  {
  }

  /** The first is the least. */
  lemma {:induction false} TopIsLeast(t: seq<u32>, i: nat)
    requires Heap(t) && i < |t|
    ensures t[0] <= t[i]
  {
    if i > 0 {
      TopIsLeast(t, Parent(i));
    }
  }

  /** Replacing an entry by another time: one direction always suffices. */
  lemma Replaced(t: seq<u32>, hole: nat, x: u32)
    requires Heap(t) && hole < |t|
    ensures var t' := t[hole := x];
            if hole > 0 && t[Parent(hole)] > x then LowAt(t', hole) else HighAt(t', hole)
  {
    var t' := t[hole := x];
    forall i | 1 <= i < |t| && Parent(i) == hole && hole > 0
      ensures t[Parent(hole)] <= t[i]
    {
      assert t[Parent(hole)] <= t[hole] <= t[i];
    }
    forall i | 1 <= i < |t| && Parent(i) != hole && i != hole
      ensures t'[Parent(i)] <= t'[i]
    {
      assert t[Parent(i)] <= t[i];
    }
    if hole > 0 && t[Parent(hole)] > x {
      forall i | 1 <= i < |t| && Parent(i) == hole
        ensures x <= t[i]
      {
        assert t[Parent(hole)] <= t[i];
      }
    }
  }

  /** The parent is no greater, so the entry does not rise. */
  predicate Sinks(t: seq<u32>, i: nat)
    requires i < |t|
  {
    i == 0 || t[Parent(i)] <= t[i]
  }

  /** The same, said of the times after the change. */
  lemma Changed(t: seq<u32>, hole: nat, before: u32)
    requires hole < |t| && Heap(t[hole := before])
    ensures if Sinks(t, hole) then HighAt(t, hole) else LowAt(t, hole)
  {
    Replaced(t[hole := before], hole, t[hole]);
    assert t[hole := before][hole := t[hole]] == t;
  }

  /** The lesser child of a place, the right one of equals. */
  function LeastBelow(t: seq<u32>, hole: nat): (c: nat)
    requires 2 * hole + 1 < |t|
    ensures hole < c < |t| && Parent(c) == hole
  {
    var c := 2 * (hole + 1);
    if c == |t| || t[c] > t[c - 1] then c - 1 else c
  }

  /** The place where an entry comes to rest that sinks from the hole. */
  function Bottom(t: seq<u32>, hole: nat): (b: nat)
    requires hole < |t|
    ensures hole <= b < |t|
    decreases |t| - hole
  {
    if 2 * hole + 1 < |t| && t[hole] > t[LeastBelow(t, hole)] then
      var c := LeastBelow(t, hole);
      Bottom(Swap(t, hole, c), c)
    else hole
  }

  lemma LeastOfTwo(t: seq<u32>, hole: nat, i: nat)
    requires 1 <= i < |t| && Parent(i) == hole
    ensures (i == 2 * hole + 1 || i == 2 * hole + 2) && 2 * hole + 1 < |t| && t[LeastBelow(t, hole)] <= t[i]
  {
  }

  /** One step down: the entry changes places with its least child, which is smaller. */
  lemma StepDown(t: seq<u32>, hole: nat)
    requires 2 * hole + 1 < |t| && HighAt(t, hole) && t[hole] > t[LeastBelow(t, hole)]
    ensures var child := LeastBelow(t, hole); HighAt(Swap(t, hole, child), child)
  {
    var child := LeastBelow(t, hole);
    var t' := Swap(t, hole, child);
    forall i | 1 <= i < |t| && Parent(i) != child
      ensures t'[Parent(i)] <= t'[i]
    {
      if i == hole {
        assert t[Parent(hole)] <= t[child];
      } else if Parent(i) == hole {
        LeastOfTwo(t, hole, i);
      }
    }
    forall i | 1 <= i < |t| && Parent(i) == child
      ensures t'[Parent(child)] <= t'[i]
    {
      assert t[child] <= t[i];
    }
  }

  /** An entry rests that is no greater than its lesser child: then the order is whole. */
  lemma {:induction false} Rests(t: seq<u32>, hole: nat)
    requires hole < |t| && HighAt(t, hole) && (2 * hole + 1 < |t| ==> t[hole] <= t[LeastBelow(t, hole)])
    ensures Heap(t) && Bottom(t, hole) == hole
  {
    forall i | 1 <= i < |t|
      ensures t[Parent(i)] <= t[i]
    {
      if Parent(i) == hole { LeastOfTwo(t, hole, i); }
    }
  }

  /** An entry goes on sinking that is greater. */
  lemma {:induction false} GoesOn(t: seq<u32>, hole: nat)
    requires hole < |t| && 2 * hole + 1 < |t| && t[hole] > t[LeastBelow(t, hole)]
    ensures Bottom(t, hole) == Bottom(Swap(t, hole, LeastBelow(t, hole)), LeastBelow(t, hole))
  {
  }

  /** The place after the children as the code has it: it runs over from hole 2^31 - 1 on. */
  lemma AfterChildren(hole: nat)
    requires hole < NOWHERE
    ensures var c := Wrap(2 * (hole + 1)); if hole < HALF - 1 then c == 2 * (hole + 1) else c <= hole
  {
  }

  /** Entries always come to rest below place 2^31 - 1 if and only if there are fewer than 2^31. */
  lemma RestLimit(n: nat)
    ensures (forall t: seq<u32>, hole: nat :: |t| == n && hole < n && HighAt(t, hole) ==> Bottom(t, hole) < HALF - 1)
            <==> n < HALF
  {
    if n >= HALF {
      var t: seq<u32> := seq(n, _ => 0);
      assert Bottom(t, HALF - 1) >= HALF - 1;
    }
  }

  lemma Shorter(t: seq<u32>, n: nat)
    requires Heap(t) && n <= |t|
    ensures Heap(t[..n])
  {
  }

  // ---- the code ----

  ghost predicate HasTimes(q: seq<TimerEntry>, t: seq<u32>)
    reads q
  {
    |q| == |t| && forall i :: 0 <= i < |q| ==> q[i].time == t[i]
  }

  ghost function Times(q: seq<TimerEntry>): (t: seq<u32>)
    reads q
    ensures HasTimes(q, t)
  {
    seq(|q|, i requires 0 <= i < |q| reads q => q[i].time)
  }

  ghost function Members(q: seq<TimerEntry>): set<TimerEntry> { set x | x in q }

  class TimerHeap {
    var p: array<TimerEntry>
    var n: nat

    /** min_heap_ctor_ */
    constructor ()
      ensures Valid() && n == 0 && fresh(p)
    {
      p := new TimerEntry[0];
      n := 0;
    }

    ghost function Entries(): seq<TimerEntry>
      reads this, p
      requires n <= p.Length
    {
      p[..n]
    }

    ghost predicate Indexed()
      reads this, p, p[..]
    {
      && n <= p.Length && n < NOWHERE
      && (forall i :: 0 <= i < n ==> p[i].idx == i)
    }

    /** Every member knows its index, and the least time is first. */
    ghost predicate Valid()
      reads this, p, p[..]
    {
      Indexed() && Heap(Times(Entries()))
    }

    /** The array is q but for the hole, whose place is meant for e. */
    ghost predicate Holed(q: seq<TimerEntry>, t: seq<u32>, hole: nat, e: TimerEntry)
      reads this, p, q
    {
      && |q| == n <= p.Length && n < NOWHERE && hole < n && q[hole] == e && HasTimes(q, t)
      && (forall i :: 0 <= i < n && i != hole ==> p[i] == q[i] && q[i] != e && q[i].idx == i)
    }

    /** (s->p[hole] = s->p[to])->min_heap_idx = hole */
    method MoveInto(hole: nat, to: nat, ghost q: seq<TimerEntry>, ghost t: seq<u32>, ghost e: TimerEntry)
      requires Holed(q, t, hole, e) && to < n && to != hole
      modifies p, Members(q)`idx
      ensures Holed(Swap(q, hole, to), Swap(t, hole, to), to, e)
    {
      assert p[to] == q[to];
      p[hole] := p[to];
      p[hole].idx := hole as u32;
    }

    /** (s->p[hole] = e)->min_heap_idx = hole */
    method Fill(hole: nat, e: TimerEntry, ghost q: seq<TimerEntry>, ghost t: seq<u32>)
      requires Holed(q, t, hole, e) && Heap(t)
      modifies p, Members(q)`idx
      ensures Valid() && Entries() == q && e.idx == hole
    {
      p[hole] := e;
      p[hole].idx := hole as u32;
      assert p[..n] == q;
      assert Times(q) == t;
    }

    /** min_heap_shift_up_ */
    method ShiftUp(hole0: nat, e: TimerEntry, ghost q0: seq<TimerEntry>, ghost t0: seq<u32>)
      requires Holed(q0, t0, hole0, e) && LowAt(t0, hole0)
      modifies p, Members(q0)`idx
      ensures Valid() && multiset(Entries()) == multiset(q0)
    {
      var hole := hole0;
      ghost var q, t := q0, t0;
      while hole > 0 && p[Parent(hole)].time > e.time
        invariant Holed(q, t, hole, e) && LowAt(t, hole)
        invariant multiset(q) == multiset(q0) && Members(q) == Members(q0)
      {
        var parent := Parent(hole);
        MoveUp(hole, e, q, t, Members(q0));
        q, t := Swap(q, hole, parent), Swap(t, hole, parent);
        hole := parent;
      }
      TopUp(t, hole);
      Fill(hole, e, q, t);
    }

    method MoveUp(hole: nat, e: TimerEntry, ghost q: seq<TimerEntry>, ghost t: seq<u32>, ghost ms: set<TimerEntry>)
      requires Holed(q, t, hole, e) && LowAt(t, hole) && hole > 0 && p[Parent(hole)].time > e.time && ms == Members(q)
      modifies p, ms`idx
      ensures var q', t' := Swap(q, hole, Parent(hole)), Swap(t, hole, Parent(hole));
              && Holed(q', t', Parent(hole), e) && LowAt(t', Parent(hole))
              && multiset(q') == multiset(q) && Members(q') == ms
    {
      StepUp(t, hole);
      SwapSame(q, hole, Parent(hole));
      SameMembers(q, Swap(q, hole, Parent(hole)));
      MoveInto(hole, Parent(hole), q, t, e);
    }

    lemma SameMembers(q: seq<TimerEntry>, q': seq<TimerEntry>)
      requires multiset(q) == multiset(q')
      ensures Members(q) == Members(q')
    {
      assert forall x :: x in q <==> x in multiset(q);
      assert forall x :: x in q' <==> x in multiset(q');
    }

    /** min_heap_shift_up_unconditional_: the first step without a test. */
    method ShiftUpUnconditional(hole0: nat, e: TimerEntry, ghost q0: seq<TimerEntry>, ghost t0: seq<u32>)
      requires Holed(q0, t0, hole0, e) && LowAt(t0, hole0) && hole0 > 0 && p[Parent(hole0)].time > e.time
      modifies p, Members(q0)`idx
      ensures Valid() && multiset(Entries()) == multiset(q0)
    {
      MoveUp(hole0, e, q0, t0, Members(q0));
      var hole := Parent(hole0);
      ghost var q, t := Swap(q0, hole0, hole), Swap(t0, hole0, hole);
      while hole > 0 && p[Parent(hole)].time > e.time
        invariant Holed(q, t, hole, e) && LowAt(t, hole)
        invariant multiset(q) == multiset(q0) && Members(q) == Members(q0)
      {
        var parent := Parent(hole);
        MoveUp(hole, e, q, t, Members(q0));
        q, t := Swap(q, hole, parent), Swap(t, hole, parent);
        hole := parent;
      }
      TopUp(t, hole);
      Fill(hole, e, q, t);
    }

    /** The lesser child of the hole, counted down from the place after it. */
    method LeastChild(hole: nat, child0: nat, ghost q: seq<TimerEntry>, ghost t: seq<u32>, ghost e: TimerEntry)
      returns (child: nat)
      requires Holed(q, t, hole, e) && child0 == 2 * (hole + 1) <= n
      ensures 2 * hole + 1 < |t| && child == LeastBelow(t, hole)
    {
      child := child0;
      if child == n || p[child].time > p[child - 1].time {
        child := child - 1;
      }
    }

    /** min_heap_shift_down_. The place after the children, 2 * (hole + 1), is an unsigned int: it runs
        over, and wrapped tells so, if and only if the entry comes to rest at place 2^31 - 1 or beyond;
        then the code goes on somewhere else in the array, or before it. */
    method ShiftDown(hole0: nat, e: TimerEntry, ghost q0: seq<TimerEntry>, ghost t0: seq<u32>)
      returns (wrapped: bool)
      requires Holed(q0, t0, hole0, e) && HighAt(t0, hole0)
      modifies p, Members(q0)`idx
      ensures wrapped <==> Bottom(t0, hole0) >= HALF - 1
      ensures !wrapped ==> Valid() && multiset(Entries()) == multiset(q0) && e.idx == Bottom(t0, hole0)
    {
      var hole := hole0;
      var child := Wrap(2 * (hole + 1));
      ghost var q, t := q0, t0;
      while child <= n
        invariant child == Wrap(2 * (hole + 1))
        invariant Holed(q, t, hole, e) && HighAt(t, hole) && Bottom(t, hole) == Bottom(t0, hole0)
        invariant multiset(q) == multiset(q0) && Members(q) == Members(q0)
        decreases n - hole
      {
        AfterChildren(hole);
        if child <= hole {
          return true;
        }
        child := LeastChild(hole, child, q, t, e);
        if !(e.time > p[child].time) {
          break;
        }
        MoveDown(hole, child, e, q, t, Members(q0));
        q, t := Swap(q, hole, child), Swap(t, hole, child);
        hole := child;
        child := Wrap(2 * (hole + 1));
      }
      AfterChildren(hole);
      Land(hole, e, q, t);
      wrapped := false;
    }

    method Land(hole: nat, e: TimerEntry, ghost q: seq<TimerEntry>, ghost t: seq<u32>)
      requires Holed(q, t, hole, e) && HighAt(t, hole)
      requires 2 * hole + 1 < n ==> t[hole] <= t[LeastBelow(t, hole)]
      modifies p, Members(q)`idx
      ensures Valid() && Entries() == q && e.idx == hole == Bottom(t, hole)
    {
      Rests(t, hole);
      Fill(hole, e, q, t);
    }

    method MoveDown(hole: nat, child: nat, e: TimerEntry, ghost q: seq<TimerEntry>, ghost t: seq<u32>,
                    ghost ms: set<TimerEntry>)
      requires Holed(q, t, hole, e) && HighAt(t, hole) && 2 * hole + 1 < n && child == LeastBelow(t, hole)
               && e.time > p[child].time && ms == Members(q)
      modifies p, ms`idx
      ensures var q', t' := Swap(q, hole, child), Swap(t, hole, child);
              && Holed(q', t', child, e) && HighAt(t', child) && Bottom(t', child) == Bottom(t, hole)
              && multiset(q') == multiset(q) && Members(q') == ms
    {
      GoesOn(t, hole);
      StepDown(t, hole);
      SwapSame(q, hole, child);
      SameMembers(q, Swap(q, hole, child));
      MoveInto(hole, child, q, t, e);
    }

    /** min_heap_reserve_ */
    method Reserve(n': nat, filler: TimerEntry)
      requires n <= p.Length
      modifies this`p
      ensures n' <= p.Length && n <= p.Length && Entries() == old(Entries()) && (p == old(p) || fresh(p))
    {
      if p.Length < n' {
        var a := if p.Length != 0 then p.Length * 2 else 8;
        if a < n' {
          a := n';
        }
        var grown := new TimerEntry[a](_ => filler);
        forall i | 0 <= i < n {
          grown[i] := p[i];
        }
        assert grown[..n] == p[..n];
        p := grown;
      }
    }

    /** min_heap_push_ */
    method Push(e: TimerEntry)
      requires Valid() && e !in Entries() && n + 1 < NOWHERE
      modifies this, p, Members(Entries())`idx, e`idx
      ensures Valid() && multiset(Entries()) == multiset(old(Entries())) + multiset{e}
    {
      ghost var q0 := Entries() + [e];
      ghost var t0 := Times(Entries()) + [e.time];
      Reserve(n + 1, e);
      n := n + 1;
      assert forall i :: 0 <= i < n - 1 ==> p[i] == q0[i];
      assert LowAt(t0, n - 1);
      ShiftUp(n - 1, e, q0, t0);
    }

    /** q without its last entry, which stands at i instead, unless it stood there. */
    ghost predicate Rest(q: seq<TimerEntry>, i: nat, q0: seq<TimerEntry>)
    {
      |q0| == |q| - 1 && i <= |q0| && forall j :: 0 <= j < |q0| ==> q0[j] == if j == i then q[|q| - 1] else q[j]
    }

    /** With the last entry taken off and entry i to be replaced by it: what is left, and its times. */
    lemma Vacated(q: seq<TimerEntry>, t: seq<u32>, i: nat) returns (q0: seq<TimerEntry>, t0: seq<u32>)
      requires HasTimes(q, t) && i < |q| && Heap(t)
      ensures Rest(q, i, q0) && HasTimes(q0, t0) && multiset(q0) == multiset(q) - multiset{q[i]}
      ensures i < |q0| ==> if i > 0 && t0[Parent(i)] > q[|q| - 1].time then LowAt(t0, i) else HighAt(t0, i)
      ensures i == |q0| ==> Heap(t0) && (i > 0 ==> t0[Parent(i)] <= q[|q| - 1].time)
      ensures (forall j :: 0 <= j < |q| ==> q[j].idx == j) ==> q[i] !in q0
      ensures Members(q0) <= Members(q)
    {
      var n := |q| - 1;
      Shorter(t, n);
      LastMoved(q, i);
      if i < n {
        q0, t0 := q[..n][i := q[n]], t[..n][i := t[n]];
        Replaced(t[..n], i, t[n]);
      } else {
        q0, t0 := q[..n], t[..n];
      }
    }

    lemma LastMoved<T>(q: seq<T>, i: nat)
      requires i < |q|
      ensures var n := |q| - 1; multiset(if i < n then q[..n][i := q[n]] else q[..n]) == multiset(q) - multiset{q[i]}
    {
      assert q == q[..|q| - 1] + [q[|q| - 1]];
    }

    /** The entry of the last index takes itself out; there is no order to restore. */
    method DropLast(e: TimerEntry, ghost q0: seq<TimerEntry>, ghost t0: seq<u32>)
      requires Indexed() && n < p.Length && p[n] == e && q0 == Entries() && HasTimes(q0, t0) && Heap(t0) && e !in q0
      modifies p, e`idx
      ensures Valid() && Entries() == q0
    {
      p[n] := e;
      p[n].idx := n as u32;
      assert p[..n] == q0 && Times(q0) == t0;
    }

    /** What is left fits the array, with a hole at i for the last entry. */
    ghost predicate Loose(i: nat, last: TimerEntry, q0: seq<TimerEntry>, t0: seq<u32>)
      reads this, p, p[..], q0
    {
      && i <= n < p.Length
      && (i < n ==> Holed(q0, t0, i, last))
      && (i == n ==> Indexed() && p[n] == last && q0 == Entries() && HasTimes(q0, t0) && Heap(t0) && last !in q0)
    }

    /** The last entry is taken off the array; entry i is to go. */
    method TakeLast(i: nat, ghost q: seq<TimerEntry>, ghost q0: seq<TimerEntry>, ghost t0: seq<u32>)
      returns (last: TimerEntry)
      requires Indexed() && i < n && q == Entries() && HasTimes(q0, t0) && Rest(q, i, q0)
      requires i == n - 1 ==> Heap(t0) && q[i] !in q0
      modifies this`n
      ensures n == old(n) - 1 && last == q[n] && Loose(i, last, q0, t0)
    {
      n := n - 1;
      last := p[n];
      assert forall j :: 0 <= j < n && j != i ==> p[j] == q0[j] == q[j];
      if i == n {
        assert q0 == p[..n];
      } else {
        assert Holed(q0, t0, i, last);
      }
    }

    /** The last entry sinks from index i, unless i was its own; then it only counts the place. */
    method SinkLast(i: nat, last: TimerEntry, ghost q0: seq<TimerEntry>, ghost t0: seq<u32>) returns (wrapped: bool)
      requires Loose(i, last, q0, t0) && (i < n ==> HighAt(t0, i))
      modifies p, Members(q0)`idx, last`idx
      ensures wrapped <==> (if i < n then i < |t0| && Bottom(t0, i) >= HALF - 1 else i >= HALF - 1)
      ensures !wrapped ==> Valid() && multiset(Entries()) == multiset(q0)
    {
      if i == n {
        wrapped := Wrap(2 * (i + 1)) <= i;
        if !wrapped {
          DropLast(last, q0, t0);
        }
      } else {
        wrapped := ShiftDown(i, last, q0, t0);
      }
    }

    /** The last entry goes up from index i or down. */
    method Settle(i: nat, last: TimerEntry, ghost q0: seq<TimerEntry>, ghost t0: seq<u32>) returns (wrapped: bool)
      requires Loose(i, last, q0, t0)
      requires if i < n then if i > 0 && t0[Parent(i)] > last.time then LowAt(t0, i) else HighAt(t0, i)
               else i > 0 ==> t0[Parent(i)] <= last.time
      modifies p, Members(q0)`idx, last`idx
      ensures wrapped ==> n >= HALF - 1
      ensures i == n >= HALF - 1 ==> wrapped
      ensures !wrapped ==> Valid() && multiset(Entries()) == multiset(q0)
    {
      assert i > 0 ==> p[Parent(i)].time == t0[Parent(i)];
      if i > 0 && p[Parent(i)].time > last.time {
        ShiftUpUnconditional(i, last, q0, t0);
        wrapped := false;
      } else {
        wrapped := SinkLast(i, last, q0, t0);
      }
    }

    /** min_heap_pop_. Nothing is promised once an index has run over, which takes more than 2^31 entries. */
    method Pop() returns (r: Option<TimerEntry>, wrapped: bool)
      requires Valid()
      modifies this`n, p, Members(Entries())`idx
      ensures wrapped ==> old(n) > HALF
      ensures !wrapped ==> Valid() && (r.None? <==> old(n) == 0)
      ensures !wrapped && r.None? ==> Entries() == old(Entries())
      ensures !wrapped && r.Some? ==> r.value in old(Entries()) && r.value.idx == NOWHERE
                                      && multiset(Entries()) == multiset(old(Entries())) - multiset{r.value}
                                      && forall x :: x in old(Entries()) ==> r.value.time <= x.time
    {
      if n == 0 {
        return None, false;
      }
      LeastOfAll(Entries(), Times(Entries()));
      var e;
      e, wrapped := TakeTop(Entries(), Times(Entries()));
      r := Some(e);
    }

    method TakeTop(ghost q: seq<TimerEntry>, ghost t: seq<u32>) returns (e: TimerEntry, wrapped: bool)
      requires Valid() && n > 0 && q == Entries() && t == Times(q)
      modifies this`n, p, Members(q)`idx
      ensures wrapped ==> old(n) > HALF
      ensures e == q[0]
      ensures !wrapped ==> Valid() && e.idx == NOWHERE && multiset(Entries()) == multiset(q) - multiset{e}
    {
      e := p[0];
      ghost var q0, t0 := Vacated(q, t, 0);
      var last := TakeLast(0, q, q0, t0);
      wrapped := SinkLast(0, last, q0, t0);
      if !wrapped {
        Unindex(e, q0);
      }
    }

    lemma LeastOfAll(q: seq<TimerEntry>, t: seq<u32>)
      requires HasTimes(q, t) && Heap(t) && q != []
      ensures forall x :: x in q ==> q[0].time <= x.time
    {
      forall x | x in q
        ensures q[0].time <= x.time
      {
        var i :| 0 <= i < |q| && q[i] == x;
        TopIsLeast(t, i);
      }
    }

    /** e->min_heap_idx = -1 */
    method Unindex(e: TimerEntry, ghost q0: seq<TimerEntry>)
      requires Valid() && multiset(Entries()) == multiset(q0) && e !in q0
      modifies e`idx
      ensures Valid() && Entries() == old(Entries()) && e.idx == NOWHERE
    {
      ghost var t := Times(Entries());
      assert forall x :: x in Entries() <==> x in multiset(Entries());
      assert forall x :: x in q0 <==> x in multiset(q0);
      e.idx := NOWHERE;
      assert Times(Entries()) == t;
    }

    /** min_heap_erase_. An index may run over if and only if there are 2^31 entries or more: with the
        last of them it does. */
    method Erase(e: TimerEntry) returns (ok: bool, wrapped: bool)
      requires Valid() && (e.idx != NOWHERE ==> e in Entries())
      modifies this`n, p, Members(Entries())`idx
      ensures wrapped ==> old(n) >= HALF
      ensures old(e.idx) != NOWHERE && old(e.idx) == old(n) - 1 && old(n) >= HALF ==> wrapped
      ensures !wrapped ==> Valid() && (ok <==> old(e.idx) != NOWHERE)
      ensures !wrapped && !ok ==> Entries() == old(Entries())
      ensures !wrapped && ok ==> e.idx == NOWHERE && multiset(Entries()) == multiset(old(Entries())) - multiset{e}
    {
      ok, wrapped := false, false;
      if e.idx == NOWHERE {
        return;
      }
      var i := e.idx as nat;
      ghost var q, t := Entries(), Times(Entries());
      ghost var q0, t0 := Vacated(q, t, i);
      var last := TakeLast(i, q, q0, t0);
      wrapped := Settle(i, last, q0, t0);
      if !wrapped {
        Unindex(e, q0);
        ok := true;
      }
    }

    /** min_heap_adjust_, after e's time changed from before to another: e is pushed if it is no
        member, else moved. */
    method Adjust(e: TimerEntry, ghost t: seq<u32>, ghost before: u32) returns (wrapped: bool)
      requires Indexed() && n + 1 < NOWHERE && HasTimes(Entries(), t)
      requires e.idx == NOWHERE ==> e !in Entries() && Heap(t)
      requires e.idx != NOWHERE ==> e in Entries() && Heap(t[e.idx := before])
      modifies this, p, Members(Entries())`idx, e`idx
      ensures wrapped <==> old(e.idx) < old(n) && Sinks(t, old(e.idx)) && Bottom(t, old(e.idx)) >= HALF - 1
      ensures !wrapped ==> Valid()
      ensures !wrapped ==>
                multiset(Entries())
                == multiset(old(Entries())) + if old(e.idx) == NOWHERE then multiset{e} else multiset{}
    {
      if e.idx == NOWHERE {
        assert Times(Entries()) == t;
        Push(e);
        wrapped := false;
      } else {
        var i := e.idx as nat;
        ghost var q := Entries();
        Changed(t, i, before);
        if i > 0 && p[Parent(i)].time > e.time {
          ShiftUpUnconditional(i, e, q, t);
          wrapped := false;
        } else {
          wrapped := ShiftDown(i, e, q, t);
        }
      }
    }
  }
}
