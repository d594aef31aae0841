/** The array lock-free queue: any number of threads, each load, slot access, compare-and-swap and
    atomic addition a separate step. Slot i of the array serves every counter congruent to i. */
module Mpmc {
  import Bits
  import opened Options

  /** Where a thread stands inside enqueue or dequeue, with its local variables: v the element,
      w, r, m its copies of m_writeIndex, m_readIndex and m_maximumReadIndex. */
  datatype Pc<T> = Idle
                 | LoadWrite(v: T)
                 | LoadRead(v: T, w: nat)
                 | Reserve(v: T, w: nat, r: nat)
                 | Store(v: T, w: nat)
                 | Commit(v: T, w: nat)
                 | CountUp(v: T)
                 | LoadHead
                 | LoadMax(r: nat)
                 | ReadSlot(r: nat, m: nat)
                 | Take(r: nat, m: nat, v: T)
                 | CountDown(v: T)

  /** What an observer sees: calls and returns, and the two steps that take effect. */
  datatype Event<T> = CallEnqueue(t: nat, v: T) | CallDequeue(t: nat)
                    | Committed(t: nat, v: T) | Took(t: nat, v: T)
                    | ReturnEnqueue(t: nat, ok: bool) | ReturnDequeue(t: nat, got: Option<T>)

  /** The queue object and the threads. reserved[i] is the element whose enqueue reserved counter i,
      log what happened; neither influences a step. */
  datatype Sys<T> = Sys(slots: seq<T>, write: nat, max: nat, read: nat, count: int,
                        threads: seq<Pc<T>>, reserved: seq<T>, log: seq<Event<T>>)

  datatype Action<T> = BeginEnqueue(t: nat, v: T) | BeginDequeue(t: nat) | Advance(t: nat)

  function Init<T>(slots: seq<T>, threads: nat): Sys<T>
  {
    Sys(slots, 0, 0, 0, 0, seq(threads, _ => Idle), [], [])
  }

  /** countToIndex */
  function Index(count: nat, q: nat): (i: nat)
    requires q > 0
    ensures i < q
  {
    count % q
  }

  function Goto<T>(s: Sys<T>, t: nat, pc: Pc<T>): Sys<T>
    requires t < |s.threads|
  {
    s.(threads := s.threads[t := pc])
  }

  function Seen<T>(s: Sys<T>, e: Event<T>): Sys<T>
  {
    s.(log := s.log + [e])
  }

  /** One step of thread t inside enqueue. */
  function EnqueueStep<T>(s: Sys<T>, t: nat): Sys<T>
    requires t < |s.threads| && |s.slots| > 0
  {
    var q := |s.slots|;
    match s.threads[t]
    case LoadWrite(v) => Goto(s, t, LoadRead(v, s.write))
    case LoadRead(v, w) =>
      if Index(w + 1, q) == Index(s.read, q) then
        Seen(Goto(s, t, Idle), ReturnEnqueue(t, false))
      else
        Goto(s, t, Reserve(v, w, s.read))
    case Reserve(v, w, _) =>
      if s.write == w then
        Goto(s, t, Store(v, w)).(write := w + 1, reserved := s.reserved + [v])
      else
        Goto(s, t, LoadWrite(v))
    case Store(v, w) => Goto(s, t, Commit(v, w)).(slots := s.slots[Index(w, q) := v])
    case Commit(v, w) =>
      if s.max == w then
        Seen(Goto(s, t, CountUp(v)).(max := w + 1), Committed(t, v))
      else
        s
    case CountUp(_) => Seen(Goto(s, t, Idle).(count := s.count + 1), ReturnEnqueue(t, true))
    case _ => s
  }

  /** One step of thread t inside dequeue. */
  function DequeueStep<T>(s: Sys<T>, t: nat): Sys<T>
    requires t < |s.threads| && |s.slots| > 0
  {
    var q := |s.slots|;
    match s.threads[t]
    case LoadHead => Goto(s, t, LoadMax(s.read))
    case LoadMax(r) =>
      if Index(r, q) == Index(s.max, q) then
        Seen(Goto(s, t, Idle), ReturnDequeue(t, None))
      else
        Goto(s, t, ReadSlot(r, s.max))
    case ReadSlot(r, m) => Goto(s, t, Take(r, m, s.slots[Index(r, q)]))
    case Take(r, _, v) =>
      if s.read == r then
        Seen(Goto(s, t, CountDown(v)).(read := r + 1), Took(t, v))
      else
        Goto(s, t, LoadHead)
    case CountDown(v) => Seen(Goto(s, t, Idle).(count := s.count - 1), ReturnDequeue(t, Some(v)))
    case _ => s
  }

  ghost predicate Enabled<T>(s: Sys<T>, a: Action<T>)
  {
    && |s.slots| > 0 && a.t < |s.threads|
    && (s.threads[a.t].Idle? <==> !a.Advance?)
  }

  function InDequeue<T>(pc: Pc<T>): bool
  {
    pc.LoadHead? || pc.LoadMax? || pc.ReadSlot? || pc.Take? || pc.CountDown?
  }

  function Apply<T>(s: Sys<T>, a: Action<T>): Sys<T>
    requires |s.slots| > 0 && a.t < |s.threads|
  {
    match a
    case BeginEnqueue(t, v) => Seen(Goto(s, t, LoadWrite(v)), CallEnqueue(t, v))
    case BeginDequeue(t) => Seen(Goto(s, t, LoadHead), CallDequeue(t))
    case Advance(t) => if InDequeue(s.threads[t]) then DequeueStep(s, t) else EnqueueStep(s, t)
  }

  // ---- the invariant ----

  /** A counter that still serves: reserved and not yet consumed. */
  ghost predicate Holds<T>(s: Sys<T>, i: nat)
    requires |s.slots| > 0 && i < |s.reserved|
  {
    s.slots[Index(i, |s.slots|)] == s.reserved[i]
  }

  ghost predicate Counters<T>(s: Sys<T>)
  {
    && |s.slots| > 0
    && s.read <= s.max <= s.write <= s.read + |s.slots| - 1
    && |s.reserved| == s.write
  }

  /** Committed elements are still in their slots. */
  ghost predicate Kept<T>(s: Sys<T>)
    requires Counters(s)
  {
    forall i: nat :: s.read <= i < s.max ==> Holds(s, i)
  }

  /** What a thread's local copies say about the shared counters. */
  ghost predicate PcOk<T>(s: Sys<T>, pc: Pc<T>)
    requires Counters(s)
  {
    match pc
    case LoadRead(_, w) => w <= s.write
    case Reserve(_, w, r) => w <= s.write && (w == s.write ==> r <= s.read && w + 1 <= r + |s.slots| - 1)
    case Store(v, w) => s.max <= w < s.write && s.reserved[w] == v
    case Commit(v, w) => s.max <= w < s.write && s.reserved[w] == v && Holds(s, w)
    case LoadMax(r) => r <= s.read
    case ReadSlot(r, m) => r <= s.read && (r == s.read ==> r < m <= s.max)
    case Take(r, m, v) => r <= s.read && (r == s.read ==> r < m <= s.max && v == s.reserved[r])
    case _ => true
  }

  ghost predicate Owns<T>(pc: Pc<T>, w: nat)
  {
    (pc.Store? || pc.Commit?) && pc.w == w
  }

  ghost predicate Inv<T>(s: Sys<T>)
  {
    && Counters(s) && Kept(s)
    && (forall t: nat :: t < |s.threads| ==> PcOk(s, s.threads[t]))
    && (forall t: nat, u: nat, w: nat :: t < u < |s.threads| && Owns(s.threads[t], w) ==> !Owns(s.threads[u], w))
  }

  // ---- counters modulo the array size ----

  lemma SameIndex(a: nat, b: nat, q: nat)
    requires q > 0 && b <= a < b + q
    ensures Index(a, q) == Index(b, q) <==> a == b
  {
    var k := a / q - b / q;
    Bits.Multiples(q, k);
    assert a - b == q * k + (a % q - b % q);
  }

  // ---- what one step changes leaves the other threads' knowledge true ----

  /** The shared part of the state. */
  ghost predicate SameShared<T>(s: Sys<T>, s': Sys<T>)
  {
    s'.slots == s.slots && s'.write == s.write && s'.max == s.max && s'.read == s.read && s'.reserved == s.reserved
  }

  /** Thread t moved on; what it knows now is true, and it owns no counter another thread owns. */
  lemma Moved<T>(s: Sys<T>, s': Sys<T>, t: nat)
    requires Inv(s) && t < |s.threads| == |s'.threads| && s'.threads == s.threads[t := s'.threads[t]]
    requires Counters(s') && Kept(s') && PcOk(s', s'.threads[t])
    requires forall u: nat :: u < |s.threads| && u != t ==> PcOk(s', s.threads[u])
    requires forall u: nat, w: nat :: u < |s.threads| && u != t && Owns(s'.threads[t], w) ==> !Owns(s.threads[u], w)
    ensures Inv(s')
  {
  }

  lemma QuietStep<T>(s: Sys<T>, s': Sys<T>, t: nat)
    requires Inv(s) && t < |s.threads| == |s'.threads| && SameShared(s, s')
    requires s'.threads == s.threads[t := s'.threads[t]]
    requires PcOk(s, s'.threads[t]) && (forall w: nat :: Owns(s'.threads[t], w) ==> Owns(s.threads[t], w))
    ensures Inv(s')
  {
    forall u: nat | u < |s.threads|
      ensures PcOk(s', s.threads[u])
    {
      SharedOk(s, s', s.threads[u]);
    }
    SharedOk(s, s', s'.threads[t]);
    forall i: nat | s'.read <= i < s'.max
      ensures Holds(s', i)
    {
      assert Holds(s, i);
    }
    Moved(s, s', t);
  }

  lemma SharedOk<T>(s: Sys<T>, s': Sys<T>, pc: Pc<T>)
    requires Counters(s) && Counters(s') && SameShared(s, s')
    ensures PcOk(s', pc) <==> PcOk(s, pc)
  {
    if pc.Commit? && pc.w < s.write {
      assert Holds(s, pc.w) <==> Holds(s', pc.w);
    }
  }

  lemma ReserveStep<T>(s: Sys<T>, t: nat)
    requires Inv(s) && t < |s.threads| && s.threads[t].Reserve? && s.write == s.threads[t].w
    ensures Inv(EnqueueStep(s, t))
  {
    var s' := EnqueueStep(s, t);
    forall i: nat | i < s.write
      ensures s'.reserved[i] == s.reserved[i] && (Holds(s, i) ==> Holds(s', i))
    {
    }
    forall i: nat | s'.read <= i < s'.max
      ensures Holds(s', i)
    {
      assert Holds(s, i);
    }
    forall u: nat | u < |s.threads| && u != t
      ensures PcOk(s', s.threads[u])
    {
      assert PcOk(s, s.threads[u]);
    }
    assert PcOk(s, s.threads[t]);
    forall u: nat, w: nat | u < |s.threads| && u != t && Owns(s'.threads[t], w)
      ensures !Owns(s.threads[u], w)
    {
      assert PcOk(s, s.threads[u]);
    }
    Moved(s, s', t);
  }

  lemma StoreStep<T>(s: Sys<T>, t: nat)
    requires Inv(s) && t < |s.threads| && s.threads[t].Store?
    ensures Inv(EnqueueStep(s, t))
  {
    var s' := EnqueueStep(s, t);
    var w := s.threads[t].w;
    assert PcOk(s, s.threads[t]);
    forall i: nat | s.read <= i < s.write && i != w && Holds(s, i)
      ensures Holds(s', i)
    {
      Apart(i, w, s.read, |s.slots|);
    }
    forall i: nat | s'.read <= i < s'.max
      ensures Holds(s', i)
    {
      assert Holds(s, i);
    }
    forall u: nat | u < |s.threads| && u != t
      ensures PcOk(s', s.threads[u])
    {
      assert PcOk(s, s.threads[u]);
      assert Owns(s.threads[t], w);
      assert !Owns(s.threads[u], w);
    }
    assert Holds(s', w);
    assert forall x: nat :: Owns(s'.threads[t], x) ==> Owns(s.threads[t], x);
    Moved(s, s', t);
  }

  lemma Apart(i: nat, w: nat, lo: nat, q: nat)
    requires q > 0 && lo <= i && lo <= w && i < lo + q && w < lo + q && i != w
    ensures Index(i, q) != Index(w, q)
  {
    if i < w {
      SameIndex(w, i, q);
    } else {
      SameIndex(i, w, q);
    }
  }

  lemma CommitStep<T>(s: Sys<T>, t: nat)
    requires Inv(s) && t < |s.threads| && s.threads[t].Commit? && s.max == s.threads[t].w
    ensures Inv(EnqueueStep(s, t))
  {
    var s' := EnqueueStep(s, t);
    var w := s.threads[t].w;
    assert PcOk(s, s.threads[t]);
    forall i: nat | i < s.write
      ensures Holds(s, i) <==> Holds(s', i)
    {
    }
    forall i: nat | s'.read <= i < s'.max
      ensures Holds(s', i)
    {
      assert Holds(s, i);
    }
    forall u: nat | u < |s.threads| && u != t
      ensures PcOk(s', s.threads[u])
    {
      assert PcOk(s, s.threads[u]);
      assert Owns(s.threads[t], w);
      assert !Owns(s.threads[u], w);
    }
    Moved(s, s', t);
  }

  lemma TakeStep<T>(s: Sys<T>, t: nat)
    requires Inv(s) && t < |s.threads| && s.threads[t].Take? && s.read == s.threads[t].r
    ensures Inv(DequeueStep(s, t))
  {
    var s' := DequeueStep(s, t);
    assert PcOk(s, s.threads[t]);
    forall i: nat | i < s.write
      ensures Holds(s, i) <==> Holds(s', i)
    {
    }
    forall i: nat | s'.read <= i < s'.max
      ensures Holds(s', i)
    {
      assert Holds(s, i);
    }
    forall u: nat | u < |s.threads| && u != t
      ensures PcOk(s', s.threads[u])
    {
      assert PcOk(s, s.threads[u]);
    }
    Moved(s, s', t);
  }

  lemma EnqueueKeeps<T>(s: Sys<T>, t: nat)
    requires Inv(s) && t < |s.threads|
    ensures Inv(EnqueueStep(s, t))
  {
    var pc := s.threads[t];
    assert PcOk(s, pc);
    if pc.Reserve? && s.write == pc.w {
      ReserveStep(s, t);
    } else if pc.Store? {
      StoreStep(s, t);
    } else if pc.Commit? && s.max == pc.w {
      CommitStep(s, t);
    } else {
      if pc.LoadRead? {
        FullExact(s, t);
      }
      QuietStep(s, EnqueueStep(s, t), t);
    }
  }

  /** Counters at most q apart: their slots coincide exactly when they are equal or q apart. */
  lemma NearIndex(a: nat, b: nat, q: nat)
    requires q > 0 && b <= a <= b + q
    ensures Index(a, q) == Index(b, q) <==> a == b || a == b + q
  {
    if a == b + q {
      WrapIndex(b, q);
    } else {
      SameIndex(a, b, q);
    }
  }

  /** enqueue returns false. With no reservation between its two loads, exactly when every usable
      slot is reserved; otherwise the queue is full at that moment exactly when the write index has
      moved by a multiple of the array size. */
  lemma FullExact<T>(s: Sys<T>, t: nat)
    requires Inv(s) && t < |s.threads| && s.threads[t].LoadRead?
    ensures var w, q := s.threads[t].w, |s.slots|;
            var fails := EnqueueStep(s, t).threads[t].Idle?;
            && (w == s.write ==> (fails <==> s.write - s.read == q - 1))
            && (fails ==> (s.write - s.read == q - 1 <==> Index(s.write, q) == Index(w, q)))
  {
    var w, q := s.threads[t].w, |s.slots|;
    NearIndex(s.write + 1, s.read, q);
    if Index(w + 1, q) == Index(s.read, q) {
      NextIndex(s.write, w, q);
    }
  }

  /** dequeue returns false. With no dequeue between its two loads, exactly when nothing is
      committed; otherwise exactly when the read index has moved by a multiple of the array size. */
  lemma EmptyExact<T>(s: Sys<T>, t: nat)
    requires Inv(s) && t < |s.threads| && s.threads[t].LoadMax?
    ensures var r, q := s.threads[t].r, |s.slots|;
            var fails := DequeueStep(s, t).threads[t].Idle?;
            && (r == s.read ==> (fails <==> s.read == s.max))
            && (fails ==> (s.read == s.max <==> Index(s.read, q) == Index(r, q)))
  {
    SameIndex(s.max, s.read, |s.slots|);
  }

  lemma NextIndex(a: nat, b: nat, q: nat)
    requires q > 0
    ensures Index(a + 1, q) == Index(b + 1, q) <==> Index(a, q) == Index(b, q)
  {
    StepIndex(a, q);
    StepIndex(b, q);
  }

  lemma StepIndex(a: nat, q: nat)
    requires q > 0
    ensures Index(a + 1, q) == if Index(a, q) == q - 1 then 0 else Index(a, q) + 1
  {
    var k := (a + 1) / q - a / q;
    Bits.Multiples(q, k);
    Bits.Multiples(q, k - 1);
    assert 1 == q * k + ((a + 1) % q - a % q);
  }

  lemma WrapIndex(a: nat, q: nat)
    requires q > 0
    ensures Index(a + q, q) == Index(a, q)
  {
    var k := (a + q) / q - a / q;
    Bits.Multiples(q, k - 1);
    assert q == q * k + ((a + q) % q - a % q);
  }

  lemma DequeueKeeps<T>(s: Sys<T>, t: nat)
    requires Inv(s) && t < |s.threads|
    ensures Inv(DequeueStep(s, t))
  {
    var pc := s.threads[t];
    assert PcOk(s, pc);
    if pc.Take? && s.read == pc.r {
      TakeStep(s, t);
    } else {
      if pc.ReadSlot? && pc.r == s.read {
        assert Holds(s, pc.r);
      }
      QuietStep(s, DequeueStep(s, t), t);
    }
  }

  lemma ApplyKeeps<T>(s: Sys<T>, a: Action<T>)
    requires Inv(s) && Enabled(s, a)
    ensures Inv(Apply(s, a)) && |Apply(s, a).threads| == |s.threads| && |Apply(s, a).slots| == |s.slots|
  {
    var t := a.t;
    if a.Advance? {
      DequeueKeeps(s, t);
      EnqueueKeeps(s, t);
    } else {
      QuietStep(s, Apply(s, a), t);
    }
  }

  // ---- the log ----

  /** What a thread is in the middle of, read off the log alone. */
  datatype Phase<T> = Quiet | Enqueuing(v: T) | Enqueued(v: T) | Dequeuing | Dequeued(v: T) | Broken

  /** A call that returns true took effect exactly once, between its call and its return and with
      the element it was given or returned; a call that returns false took no effect. */
  function NextPhase<T(==)>(p: Phase<T>, e: Event<T>): Phase<T>
  {
    match e
    case CallEnqueue(_, v) => if p.Quiet? then Enqueuing(v) else Broken
    case Committed(_, v) => if p == Enqueuing(v) then Enqueued(v) else Broken
    case ReturnEnqueue(_, ok) => if (if ok then p.Enqueued? else p.Enqueuing?) then Quiet else Broken
    case CallDequeue(_) => if p.Quiet? then Dequeuing else Broken
    case Took(_, v) => if p.Dequeuing? then Dequeued(v) else Broken
    case ReturnDequeue(_, None) => if p.Dequeuing? then Quiet else Broken
    case ReturnDequeue(_, Some(v)) => if p == Dequeued(v) then Quiet else Broken
  }

  function PhaseOf<T(==)>(log: seq<Event<T>>, t: nat): Phase<T>
  {
    if log == [] then
      Quiet
    else
      var p := PhaseOf(log[..|log| - 1], t);
      var e := log[|log| - 1];
      if e.t == t then NextPhase(p, e) else p
  }

  /** An ordinary FIFO queue fed with the effects in the order they happened; None if some dequeue
      did not get the oldest element. */
  function Replay<T(==)>(log: seq<Event<T>>): Option<seq<T>>
  {
    if log == [] then
      Some([])
    else
      var before := Replay(log[..|log| - 1]);
      match (before, log[|log| - 1])
      case (None, _) => None
      case (Some(fifo), Committed(_, v)) => Some(fifo + [v])
      case (Some(fifo), Took(_, v)) => if fifo != [] && fifo[0] == v then Some(fifo[1..]) else None
      case (Some(fifo), _) => Some(fifo)
  }

  /** The elements put in and taken out, in order. */
  function Commits<T>(log: seq<Event<T>>): seq<T>
  {
    if log == [] then [] else
      var e := log[|log| - 1];
      Commits(log[..|log| - 1]) + if e.Committed? then [e.v] else []
  }

  function Takes<T>(log: seq<Event<T>>): seq<T>
  {
    if log == [] then [] else
      var e := log[|log| - 1];
      Takes(log[..|log| - 1]) + if e.Took? then [e.v] else []
  }

  function PhaseAt<T>(pc: Pc<T>): Phase<T>
  {
    match pc
    case Idle => Quiet
    case LoadWrite(v) => Enqueuing(v)
    case LoadRead(v, _) => Enqueuing(v)
    case Reserve(v, _, _) => Enqueuing(v)
    case Store(v, _) => Enqueuing(v)
    case Commit(v, _) => Enqueuing(v)
    case CountUp(v) => Enqueued(v)
    case CountDown(v) => Dequeued(v)
    case _ => Dequeuing
  }

  /** The elements a dequeue can get: committed and not consumed. */
  function Queue<T>(s: Sys<T>): seq<T>
    requires Counters(s)
  {
    s.reserved[s.read..s.max]
  }

  /** The atomic additions to m_count that are still to come. */
  function Pending<T>(threads: seq<Pc<T>>): int
  {
    if threads == [] then 0 else
      Pending(threads[..|threads| - 1])
      + (if threads[|threads| - 1].CountUp? then 1 else if threads[|threads| - 1].CountDown? then -1 else 0)
  }

  lemma {:induction false} PendingMoved<T>(threads: seq<Pc<T>>, t: nat, pc: Pc<T>)
    requires t < |threads|
    ensures Pending(threads[t := pc]) == Pending(threads) - Pending([threads[t]]) + Pending([pc])
  {
    var n := |threads| - 1;
    assert threads[t := pc][..n] == if t < n then threads[..n][t := pc] else threads[..n];
    assert [threads[t]][..0] == [] && [pc][..0] == [];
    if t < n {
      PendingMoved(threads[..n], t, pc);
    }
  }

  ghost predicate LogOk<T>(s: Sys<T>)
    requires Counters(s)
  {
    && (forall t: nat :: t < |s.threads| ==> PhaseOf(s.log, t) == PhaseAt(s.threads[t]))
    && Replay(s.log) == Some(Queue(s))
    && Commits(s.log) == s.reserved[..s.max] && Takes(s.log) == s.reserved[..s.read]
    && s.count + Pending(s.threads) == s.max - s.read
  }

  lemma LogUnchanged<T>(s: Sys<T>, s': Sys<T>, t: nat)
    requires Counters(s) && Counters(s') && LogOk(s) && t < |s.threads| == |s'.threads|
             && s'.threads == s.threads[t := s'.threads[t]]
    requires s'.log == s.log && s'.max == s.max && s'.read == s.read && s'.count == s.count && s.reserved <= s'.reserved
    requires PhaseAt(s'.threads[t]) == PhaseAt(s.threads[t])
    ensures LogOk(s')
  {
    PendingMoved(s.threads, t, s'.threads[t]);
    assert Queue(s') == Queue(s);
    assert s'.reserved[..s.max] == s.reserved[..s.max] && s'.reserved[..s.read] == s.reserved[..s.read];
  }

  lemma LogExtended<T>(s: Sys<T>, s': Sys<T>, t: nat, e: Event<T>)
    requires Counters(s) && Counters(s') && LogOk(s) && t < |s.threads| == |s'.threads|
             && s'.threads == s.threads[t := s'.threads[t]]
    requires s'.log == s.log + [e] && e.t == t && s'.reserved == s.reserved
    requires PhaseAt(s'.threads[t]) == NextPhase(PhaseAt(s.threads[t]), e)
    requires e.Committed? ==> s'.max == s.max + 1 && s'.read == s.read && s.max < s.write && s.reserved[s.max] == e.v
    requires e.Took? ==> s'.max == s.max && s'.read == s.read + 1 && s.read < s.max && s.reserved[s.read] == e.v
    requires !e.Committed? && !e.Took? ==> s'.max == s.max && s'.read == s.read
    requires s'.count - s.count
             == (s'.max - s'.read) - (s.max - s.read) - Pending([s'.threads[t]]) + Pending([s.threads[t]])
    ensures LogOk(s')
  {
    PendingMoved(s.threads, t, s'.threads[t]);
    assert s'.log[..|s'.log| - 1] == s.log;
    if e.Committed? {
      assert Queue(s') == Queue(s) + [e.v];
    } else if e.Took? {
      SliceTail(s.reserved, s.read, s.max);
    }
  }

  lemma SliceTail<T>(r: seq<T>, lo: nat, hi: nat)
    requires lo < hi <= |r|
    ensures r[lo..hi] != [] && r[lo..hi][0] == r[lo] && r[lo..hi][1..] == r[lo + 1..hi]
  {
  }

  lemma EnqueueLogs<T>(s: Sys<T>, t: nat)
    requires Inv(s) && LogOk(s) && t < |s.threads| && !InDequeue(s.threads[t])
    ensures Inv(EnqueueStep(s, t)) && LogOk(EnqueueStep(s, t))
  {
    var s' := EnqueueStep(s, t);
    var pc := s.threads[t];
    EnqueueKeeps(s, t);
    assert PcOk(s, pc);
    if |s'.log| > |s.log| {
      LogExtended(s, s', t, s'.log[|s.log|]);
    } else {
      LogUnchanged(s, s', t);
    }
  }

  lemma DequeueLogs<T>(s: Sys<T>, t: nat)
    requires Inv(s) && LogOk(s) && t < |s.threads| && InDequeue(s.threads[t])
    ensures Inv(DequeueStep(s, t)) && LogOk(DequeueStep(s, t))
  {
    var s' := DequeueStep(s, t);
    var pc := s.threads[t];
    DequeueKeeps(s, t);
    assert PcOk(s, pc);
    if |s'.log| > |s.log| {
      LogExtended(s, s', t, s'.log[|s.log|]);
    } else {
      LogUnchanged(s, s', t);
    }
  }

  lemma StepKeeps<T>(s: Sys<T>, a: Action<T>)
    requires Inv(s) && LogOk(s) && Enabled(s, a)
    ensures Inv(Apply(s, a)) && LogOk(Apply(s, a))
  {
    ApplyKeeps(s, a);
    if a.Advance? {
      if InDequeue(s.threads[a.t]) {
        DequeueLogs(s, a.t);
      } else {
        EnqueueLogs(s, a.t);
      }
    } else {
      var s' := Apply(s, a);
      LogExtended(s, s', a.t, s'.log[|s.log|]);
    }
  }

  /** Every reserved counter that is not committed belongs to a thread that will commit it. */
  ghost predicate Promised<T>(s: Sys<T>)
  {
    forall w: nat :: s.max <= w < s.write ==> Owned(s, w)
  }

  ghost predicate Owned<T>(s: Sys<T>, w: nat)
  {
    exists t: nat :: t < |s.threads| && Owns(s.threads[t], w)
  }

  lemma PromisedKeeps<T>(s: Sys<T>, a: Action<T>)
    requires Inv(s) && Promised(s) && Enabled(s, a)
    ensures Promised(Apply(s, a))
  {
    var s' := Apply(s, a);
    assert PcOk(s, s.threads[a.t]);
    forall w: nat | s'.max <= w < s'.write
      ensures Owned(s', w)
    {
      if w == s.write {
        assert Owns(s'.threads[a.t], w);
      } else {
        assert Owned(s, w);
        var t: nat :| t < |s.threads| && Owns(s.threads[t], w);
        StillOwns(s, a, t, w);
      }
    }
  }

  /** A thread gives up the counter it reserved only by committing it. */
  lemma StillOwns<T>(s: Sys<T>, a: Action<T>, t: nat, w: nat)
    requires Inv(s) && Enabled(s, a) && t < |s.threads| && Owns(s.threads[t], w)
    ensures var s' := Apply(s, a);
            |s'.threads| == |s.threads| && (Owns(s'.threads[t], w) || (t == a.t && s'.max == w + 1))
  {
  }

  // ---- every run ----

  /** The actions, taken one after another, were all possible, and lead from s to the result. */
  ghost predicate Runs<T(!new)>(s: Sys<T>, actions: seq<Action<T>>, s': Sys<T>)
    decreases |actions|
  {
    if actions == [] then s' == s
    else Enabled(s, actions[0]) && Runs(Apply(s, actions[0]), actions[1..], s')
  }

  lemma {:induction false} RunKeeps<T(!new)>(s: Sys<T>, actions: seq<Action<T>>, s': Sys<T>)
    requires Inv(s) && LogOk(s) && Promised(s) && Runs(s, actions, s')
    ensures Inv(s') && LogOk(s') && Promised(s') && |s'.slots| == |s.slots| && |s'.threads| == |s.threads|
    decreases |actions|
  {
    if actions != [] {
      StepKeeps(s, actions[0]);
      PromisedKeeps(s, actions[0]);
      ApplyKeeps(s, actions[0]);
      RunKeeps(Apply(s, actions[0]), actions[1..], s');
    }
  }

  lemma {:induction false} InitOk<T>(slots: seq<T>, n: nat)
    requires |slots| > 0
    ensures Inv(Init(slots, n)) && LogOk(Init(slots, n)) && Promised(Init(slots, n))
    decreases n
  {
    var s := Init(slots, n);
    if n > 0 {
      InitOk(slots, n - 1);
      assert s.threads[..n - 1] == Init(slots, n - 1).threads;
    }
  }

  /** The queue is linearizable in every interleaving: each call that returns true takes effect at
      one step between its call and its return, each that returns false takes none, and the effects
      in their order are a run of one FIFO queue. Elements leave in the order in which their slots
      were reserved, no index overtakes another, and m_count is exact up to pending additions. */
  lemma {:induction false} EveryRunIsFifo<T(!new)>(slots: seq<T>, n: nat, actions: seq<Action<T>>, s: Sys<T>)
    requires |slots| > 0 && Runs(Init(slots, n), actions, s)
    ensures |s.slots| == |slots| && |s.threads| == n && |s.reserved| == s.write
    ensures s.read <= s.max <= s.write <= s.read + |slots| - 1
    ensures forall t: nat :: t < n ==> PhaseOf(s.log, t) != Broken
    ensures Replay(s.log) == Some(s.reserved[s.read..s.max])
    ensures Commits(s.log) == s.reserved[..s.max] && Takes(s.log) == s.reserved[..s.read]
    ensures (forall t: nat :: t < n ==> s.threads[t].Idle?) ==> s.write == s.max && s.count == s.max - s.read
  {
    InitOk(slots, n);
    RunKeeps(Init(slots, n), actions, s);
    if forall t: nat :: t < n ==> s.threads[t].Idle? {
      Quiescent(s.threads);
      assert s.max < s.write ==> Owned(s, s.max);
    }
  }

  lemma {:induction false} Quiescent<T>(threads: seq<Pc<T>>)
    requires forall t: nat :: t < |threads| ==> threads[t].Idle?
    ensures Pending(threads) == 0
  {
    if threads != [] {
      Quiescent(threads[..|threads| - 1]);
    }
  }

  // ---- false answers that no instant justifies ----

  /** Something was committed and not consumed in every state of the run. */
  ghost predicate NeverEmpty<T(!new)>(s: Sys<T>, actions: seq<Action<T>>)
    decreases |actions|
  {
    s.read < s.max && (actions != [] && Enabled(s, actions[0]) ==> NeverEmpty(Apply(s, actions[0]), actions[1..]))
  }

  lemma {:induction false} RunsThen<T(!new)>(s: Sys<T>, a: seq<Action<T>>, m: Sys<T>, b: seq<Action<T>>, s': Sys<T>)
    requires Runs(s, a, m) && Runs(m, b, s')
    ensures Runs(s, a + b, s')
    ensures NeverEmpty(s, a) && NeverEmpty(m, b) ==> NeverEmpty(s, a + b)
    decreases |a|
  {
    if a == [] {
      assert a + b == b;
    } else {
      RunsThen(Apply(s, a[0]), a[1..], m, b, s');
      assert (a + b)[1..] == a[1..] + b;
    }
  }

  lemma RunsStep<T(!new)>(s: Sys<T>, a: seq<Action<T>>, m: Sys<T>, x: Action<T>) returns (b: seq<Action<T>>)
    requires Runs(s, a, m) && Enabled(m, x)
    ensures Runs(s, b, Apply(m, x)) && b == a + [x]
    ensures NeverEmpty(s, a) && m.read < m.max && Apply(m, x).read < Apply(m, x).max ==> NeverEmpty(s, b)
  {
    b := a + [x];
    var none := [x][1..];
    assert Runs(Apply(m, x), none, Apply(m, x));
    assert Apply(m, x).read < Apply(m, x).max ==> NeverEmpty(Apply(m, x), none);
    RunsThen(s, a, m, [x], Apply(m, x));
  }

  /** The state once thread t, alone, has enqueued v. */
  function AfterEnqueue<T>(s: Sys<T>, t: nat, v: T): Sys<T>
    requires |s.slots| > 0
  {
    Sys(s.slots[Index(s.write, |s.slots|) := v], s.write + 1, s.write + 1, s.read, s.count + 1, s.threads,
        s.reserved + [v], s.log + [CallEnqueue(t, v)] + [Committed(t, v)] + [ReturnEnqueue(t, true)])
  }

  function AfterDequeue<T>(s: Sys<T>, t: nat): Sys<T>
    requires |s.slots| > 0
  {
    var v := s.slots[Index(s.read, |s.slots|)];
    s.(read := s.read + 1, count := s.count - 1,
       log := s.log + [CallDequeue(t)] + [Took(t, v)] + [ReturnDequeue(t, Some(v))])
  }

  /** Undisturbed, enqueue succeeds unless the array is full. */
  lemma EnqueueAlone<T(!new)>(s: Sys<T>, t: nat, v: T) returns (actions: seq<Action<T>>)
    requires Inv(s) && t < |s.threads| && s.threads[t].Idle? && s.max == s.write && s.write - s.read < |s.slots| - 1
    ensures Runs(s, actions, AfterEnqueue(s, t, v)) && (s.read < s.max ==> NeverEmpty(s, actions))
  {
    var go := Advance(t);
    NearIndex(s.write + 1, s.read, |s.slots|);
    actions := RunsStep(s, [], s, BeginEnqueue(t, v));
    var s1 := Apply(s, BeginEnqueue(t, v));
    actions := RunsStep(s, actions, s1, go);
    var s2 := Apply(s1, go);
    actions := RunsStep(s, actions, s2, go);
    var s3 := Apply(s2, go);
    assert s3 == Seen(Goto(s, t, Reserve(v, s.write, s.read)), CallEnqueue(t, v));
    actions := EnqueueRest(s, actions, s3, t, v);
  }

  lemma EnqueueRest<T(!new)>(s: Sys<T>, a: seq<Action<T>>, s3: Sys<T>, t: nat, v: T) returns (actions: seq<Action<T>>)
    requires Runs(s, a, s3) && t < |s.threads| && s.threads[t].Idle? && s.max == s.write && |s.slots| > 0
    requires s3 == Seen(Goto(s, t, Reserve(v, s.write, s.read)), CallEnqueue(t, v))
    ensures Runs(s, actions, AfterEnqueue(s, t, v)) && (NeverEmpty(s, a) && s.read < s.max ==> NeverEmpty(s, actions))
  {
    var go := Advance(t);
    actions := RunsStep(s, a, s3, go);
    var s4 := Apply(s3, go);
    actions := RunsStep(s, actions, s4, go);
    var s5 := Apply(s4, go);
    actions := RunsStep(s, actions, s5, go);
    var s6 := Apply(s5, go);
    actions := RunsStep(s, actions, s6, go);
    assert Apply(s6, go) == AfterEnqueue(s, t, v);
  }

  /** Undisturbed, dequeue succeeds unless nothing is committed. */
  lemma DequeueAlone<T(!new)>(s: Sys<T>, t: nat) returns (actions: seq<Action<T>>)
    requires Inv(s) && t < |s.threads| && s.threads[t].Idle? && s.read < s.max
    ensures Runs(s, actions, AfterDequeue(s, t)) && (s.read + 1 < s.max ==> NeverEmpty(s, actions))
  {
    var go := Advance(t);
    SameIndex(s.max, s.read, |s.slots|);
    actions := RunsStep(s, [], s, BeginDequeue(t));
    var s1 := Apply(s, BeginDequeue(t));
    actions := RunsStep(s, actions, s1, go);
    var s2 := Apply(s1, go);
    actions := RunsStep(s, actions, s2, go);
    var s3 := Apply(s2, go);
    actions := RunsStep(s, actions, s3, go);
    var s4 := Apply(s3, go);
    assert s4 == Seen(Goto(s, t, Take(s.read, s.max, s.slots[Index(s.read, |s.slots|)])), CallDequeue(t));
    actions := DequeueRest(s, actions, s4, t);
  }

  lemma DequeueRest<T(!new)>(s: Sys<T>, a: seq<Action<T>>, s4: Sys<T>, t: nat) returns (actions: seq<Action<T>>)
    requires Runs(s, a, s4) && t < |s.threads| && s.threads[t].Idle? && s.read < s.max && |s.slots| > 0
    requires s4 == Seen(Goto(s, t, Take(s.read, s.max, s.slots[Index(s.read, |s.slots|)])), CallDequeue(t))
    ensures Runs(s, actions, AfterDequeue(s, t)) && (NeverEmpty(s, a) && s.read + 1 < s.max ==> NeverEmpty(s, actions))
  {
    var go := Advance(t);
    actions := RunsStep(s, a, s4, go);
    var s5 := Apply(s4, go);
    actions := RunsStep(s, actions, s5, go);
    assert Apply(s5, go) == AfterDequeue(s, t);
  }

  ghost predicate Good<T>(s: Sys<T>)
  {
    Inv(s) && LogOk(s) && Promised(s) && s.max == s.write
  }

  /** A run so far, continued by an undisturbed enqueue or dequeue of thread t. */
  lemma ThenEnqueue<T(!new)>(s0: Sys<T>, a: seq<Action<T>>, s: Sys<T>, t: nat, v: T)
    returns (b: seq<Action<T>>, s': Sys<T>)
    requires Good(s0) && Runs(s0, a, s) && Good(s) && t < |s.threads| && s.threads[t].Idle?
             && s.write - s.read < |s.slots| - 1
    ensures Runs(s0, b, s') && Good(s') && a <= b && (NeverEmpty(s0, a) && s.read < s.max ==> NeverEmpty(s0, b))
    ensures s'.write == s.write + 1 && s'.read == s.read && s'.threads == s.threads && |s'.slots| == |s.slots|
            && s.log <= s'.log
  {
    var more := EnqueueAlone(s, t, v);
    s' := AfterEnqueue(s, t, v);
    RunKeeps(s, more, s');
    RunsThen(s0, a, s, more, s');
    b := a + more;
  }

  lemma ThenDequeue<T(!new)>(s0: Sys<T>, a: seq<Action<T>>, s: Sys<T>, t: nat) returns (b: seq<Action<T>>, s': Sys<T>)
    requires Good(s0) && Runs(s0, a, s) && Good(s) && t < |s.threads| && s.threads[t].Idle? && s.read < s.max
    ensures Runs(s0, b, s') && Good(s') && a <= b && (NeverEmpty(s0, a) && s.read + 1 < s.max ==> NeverEmpty(s0, b))
    ensures s'.write == s.write && s'.read == s.read + 1 && s'.threads == s.threads && |s'.slots| == |s.slots|
            && s.log <= s'.log
  {
    var more := DequeueAlone(s, t);
    s' := AfterDequeue(s, t);
    RunKeeps(s, more, s');
    RunsThen(s0, a, s, more, s');
    b := a + more;
  }

  /** A call begun, and its first load. */
  lemma Begin<T(!new)>(s: Sys<T>, x: Action<T>) returns (a: seq<Action<T>>, s': Sys<T>)
    requires Good(s) && x.t < |s.threads| && s.threads[x.t].Idle? && !x.Advance?
    ensures Runs(s, a, s') && Good(s') && [x] <= a && (s.read < s.max ==> NeverEmpty(s, a))
    ensures s'.write == s.write && s'.read == s.read && s'.slots == s.slots && s.log <= s'.log
    ensures x.BeginEnqueue? ==> s'.threads == s.threads[x.t := LoadRead(x.v, s.write)]
    ensures x.BeginEnqueue? ==> s.log + [CallEnqueue(x.t, x.v)] <= s'.log
    ensures x.BeginDequeue? ==> s'.threads == s.threads[x.t := LoadMax(s.read)]
  {
    assert NeverEmpty(s, []) <==> s.read < s.max;
    a := RunsStep(s, [], s, x);
    var s1 := Apply(s, x);
    a := RunsStep(s, a, s1, Advance(x.t));
    s' := Apply(s1, Advance(x.t));
    RunKeeps(s, a, s');
  }

  /** enqueue can return false although at most one slot was in use during the whole call: between
      its loads another thread enqueues and dequeues once. */
  lemma SpuriousFull<T(!new)>(slots: seq<T>, v: T) returns (actions: seq<Action<T>>, s: Sys<T>)
    requires |slots| >= 3
    ensures Runs(Init(slots, 2), actions, s) && [CallEnqueue(0, v)] <= s.log
    ensures s.log != [] && s.log[|s.log| - 1] == ReturnEnqueue(0, false) && s.write == 1 && s.read == 1
  {
    var s0 := Init(slots, 2);
    InitOk(slots, 2);
    var s1, s2, s3;
    actions, s1 := Begin(s0, BeginEnqueue(0, v));
    actions, s2 := ThenEnqueue(s0, actions, s1, 1, v);
    actions, s3 := ThenDequeue(s0, actions, s2, 1);
    actions, s := FindFull(s0, actions, s3, v);
  }

  lemma FindFull<T(!new)>(s0: Sys<T>, a: seq<Action<T>>, s: Sys<T>, v: T) returns (b: seq<Action<T>>, s': Sys<T>)
    requires Runs(s0, a, s) && Good(s) && s.read == 1 && |s.threads| > 0 && s.threads[0] == LoadRead(v, 0)
    ensures Runs(s0, b, s') && s'.log == s.log + [ReturnEnqueue(0, false)] && s'.write == s.write && s'.read == s.read
  {
    b := RunsStep(s0, a, s, Advance(0));
    s' := Apply(s, Advance(0));
  }

  /** dequeue can return false although the queue held an element in every state of the call: with
      three slots, two enqueues and one dequeue between its loads bring m_maximumReadIndex to a
      counter congruent to the old m_readIndex. */
  lemma SpuriousEmpty<T(!new)>(slots: seq<T>, v: T)
    returns (before: seq<Action<T>>, s0: Sys<T>, during: seq<Action<T>>, s: Sys<T>)
    requires |slots| == 3
    ensures Runs(Init(slots, 2), before, s0) && |s0.threads| == 2 && s0.threads[0].Idle?
    ensures [BeginDequeue(0)] <= during && Runs(s0, during, s) && NeverEmpty(s0, during)
    ensures s.log != [] && s.log[|s.log| - 1] == ReturnDequeue(0, None)
  {
    InitOk(slots, 2);
    before, s0 := ThenEnqueue(Init(slots, 2), [], Init(slots, 2), 1, v);
    var s1, s2, s3, s4;
    during, s1 := Begin(s0, BeginDequeue(0));
    during, s2 := ThenEnqueue(s0, during, s1, 1, v);
    during, s3 := ThenDequeue(s0, during, s2, 1);
    during, s4 := ThenEnqueue(s0, during, s3, 1, v);
    during, s := FindEmpty(s0, during, s4);
  }

  lemma FindEmpty<T(!new)>(s0: Sys<T>, a: seq<Action<T>>, s: Sys<T>) returns (b: seq<Action<T>>, s': Sys<T>)
    requires Runs(s0, a, s) && Good(s) && NeverEmpty(s0, a) && s.read < s.max == |s.slots|
    requires |s.threads| > 0 && s.threads[0] == LoadMax(0)
    ensures Runs(s0, b, s') && a <= b && NeverEmpty(s0, b)
    ensures s'.log != [] && s'.log[|s'.log| - 1] == ReturnDequeue(0, None)
  {
    WrapIndex(0, |s.slots|);
    b := RunsStep(s0, a, s, Advance(0));
    s' := Apply(s, Advance(0));
  }
}
