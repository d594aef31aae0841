/** When timers fire. Every timer fires at the tick at which the clock shows its expiry time, once,
    unless it was filed straight into index 0 of level 0, 1 or 2: then it never fires. */
module WheelExact {
  import opened U32
  import opened WheelTime
  import opened TimeWheel

  // ---- contents ----

  /** How often x occurs in a list, and in the lists together. */
  function Times(list: seq<Timer>, x: Timer): (n: nat)
    ensures n > 0 <==> x in list
  {
    if list == [] then 0 else Times(list[..|list| - 1], x) + if list[|list| - 1] == x then 1 else 0
  }

  function Count(lists: Lists, x: Timer): nat
  {
    if lists == [] then 0 else Count(lists[..|lists| - 1], x) + Times(lists[|lists| - 1], x)
  }

  lemma {:induction false} TimesJoined(a: seq<Timer>, b: seq<Timer>, x: Timer)
    ensures Times(a + b, x) == Times(a, x) + Times(b, x)
    decreases |b|
  {
    if b == [] {
      assert a + b == a;
    } else {
      var n := |b| - 1;
      assert (a + b)[..|a + b| - 1] == a + b[..n];
      TimesJoined(a, b[..n], x);
    }
  }

  lemma {:induction false} CountReplaced(lists: Lists, i: int, l: seq<Timer>, x: Timer)
    requires 0 <= i < |lists|
    ensures Count(lists[i := l], x) == Count(lists, x) - Times(lists[i], x) + Times(l, x)
  {
    var n := |lists| - 1;
    assert lists[i := l][..n] == if i < n then lists[..n][i := l] else lists[..n];
    if i < n {
      CountReplaced(lists[..n], i, l, x);
    }
  }

  lemma {:induction false} Where(lists: Lists, x: Timer) returns (i: int)
    ensures Count(lists, x) > 0 ==> 0 <= i < |lists| && x in lists[i]
  {
    if lists != [] {
      i := |lists| - 1;
      if x !in lists[i] {
        i := Where(lists[..i], x);
      }
    } else {
      i := 0;
    }
  }

  /** Index 0 of levels 0, 1 and 2: no tick empties it. */
  predicate Stuck(r: int) { r == 0 || r == 64 || r == 128 }

  function Masked(rows: Lists): (m: Lists)
    requires |rows| == 256
    ensures |m| == 256
    ensures forall r :: 0 <= r < 256 ==> m[r] == if Stuck(r) then [] else rows[r]
  {
    rows[0 := []][64 := []][128 := []]
  }

  /** How often x is held where it can still fire, and where it cannot. */
  function Live(w: State, x: Timer): nat
    requires Sized(w)
  {
    Count(w.near, x) + Count(Masked(w.rows), x)
  }

  function Lost(w: State, x: Timer): nat
    requires Sized(w)
  {
    Times(w.rows[0], x) + Times(w.rows[64], x) + Times(w.rows[128], x)
  }

  /** Exactly these timers, added with this distance at this time, are lost. */
  predicate LostOnArrival(now: u32, away: u32)
  {
    var k := LevelFor(away);
    0 <= k < 3 && Slot(Add(now, away), k) == 0
  }

  // ---- every live timer is where it should be ----

  ghost predicate NearOk(x: Timer, i: int, now: u32)
  {
    x.expire % NEAR == i && Sub(x.expire, now) < NEAR
  }

  ghost predicate RowOk(x: Timer, r: int, now: u32)
    requires 0 <= r < 256
  {
    var k := r / ROW;
    && Slot(x.expire, k) == r % ROW
    && 1 <= Sub(DueAt(x.expire, k), now) < ROW * Span(k)
    && Sub(DueAt(x.expire, k), now) <= Sub(x.expire, now)
  }

  ghost predicate Placed(w: State)
    requires Sized(w)
  {
    && (forall i: int, x: Timer :: 0 <= i < 256 && x in w.near[i] ==> NearOk(x, i, w.time))
    && (forall r: int, x: Timer :: 0 <= r < 256 && !Stuck(r) && x in w.rows[r] ==> RowOk(x, r, w.time))
  }

  /** Between calls nothing is due. */
  ghost predicate Settled(w: State)
  {
    Sized(w) && Placed(w) && Due(w) == []
  }

  lemma FiledPlaced(w: State, x: Timer)
    requires Sized(w) && Placed(w)
    ensures Placed(Filed(w, x))
    ensures Sub(x.expire, w.time) != 0 ==> Due(Filed(w, x)) == Due(w)
  {
    var k := LevelFor(Sub(x.expire, w.time));
    if k == -1 {
      NearDue(x.expire, w.time);
    } else {
      DueLater(x.expire, w.time, k);
      assert RowOk(x, Row(k, Slot(x.expire, k)), w.time);
    }
  }

  lemma NearDue(e: u32, now: u32)
    requires Sub(e, now) < NEAR
    ensures e % NEAR == now % NEAR <==> e == now
  {
  }

  /** Filing adds the timer to the live ones, or to the lost ones. */
  lemma FiledCounts(w: State, y: Timer, x: Timer)
    requires Sized(w)
    ensures var lost := LostOnArrival(w.time, Sub(y.expire, w.time));
            && Live(Filed(w, y), x) == Live(w, x) + (if x == y && !lost then 1 else 0)
            && Lost(Filed(w, y), x) == Lost(w, x) + (if x == y && lost then 1 else 0)
  {
    var k := LevelFor(Sub(y.expire, w.time));
    if k == -1 {
      LinkCounts(w.near, y.expire % NEAR, y, x);
    } else {
      StuckRow(k, Slot(y.expire, k));
      assert Add(w.time, Sub(y.expire, w.time)) == y.expire;
      RowCounts(w, Row(k, Slot(y.expire, k)), y, x);
    }
  }

  lemma StuckRow(k: int, i: int)
    requires 0 <= k < LEVELS && 0 <= i < ROW
    ensures Stuck(Row(k, i)) <==> k < 3 && i == 0
  {
  }

  lemma RowCounts(w: State, r: int, y: Timer, x: Timer)
    requires Sized(w) && 0 <= r < 256
    ensures var w' := w.(rows := Link(w.rows, r, y));
            && Live(w', x) == Live(w, x) + (if x == y && !Stuck(r) then 1 else 0)
            && Lost(w', x) == Lost(w, x) + (if x == y && Stuck(r) then 1 else 0)
  {
    TimesJoined(w.rows[r], [y], x);
    if Stuck(r) {
      assert Masked(Link(w.rows, r, y)) == Masked(w.rows);
    } else {
      assert Masked(Link(w.rows, r, y)) == Link(Masked(w.rows), r, y);
      LinkCounts(Masked(w.rows), r, y, x);
    }
  }

  lemma {:induction false} LinkCounts(lists: Lists, i: int, y: Timer, x: Timer)
    requires 0 <= i < |lists|
    ensures Count(Link(lists, i, y), x) == Count(lists, x) + if x == y then 1 else 0
  {
    TimesJoined(lists[i], [y], x);
    CountReplaced(lists, i, lists[i] + [y], x);
  }

  // ---- one tick ----

  /** Filing again a row that is due keeps everything in place and loses nothing. */
  lemma {:induction false} RefiledKeeps(w: State, list: seq<Timer>, k: int)
    requires Sized(w) && Placed(w) && 0 <= k < LEVELS
    requires forall x :: x in list ==> DueAt(x.expire, k) == w.time
    ensures Placed(Refiled(w, list))
    ensures forall x :: Live(Refiled(w, list), x) == Live(w, x) + Times(list, x)
                        && Lost(Refiled(w, list), x) == Lost(w, x)
    decreases |list|
  {
    if list != [] {
      var y, w1 := list[0], Filed(w, list[0]);
      FiledDue(w, y, k);
      RefiledKeeps(w1, list[1..], k);
      forall x
        ensures Live(Refiled(w, list), x) == Live(w, x) + Times(list, x) && Lost(Refiled(w, list), x) == Lost(w, x)
      {
        assert list == [y] + list[1..];
        TimesJoined([y], list[1..], x);
        FiledDueCounts(w, y, k, x);
      }
    }
  }

  lemma FiledDue(w: State, y: Timer, k: int)
    requires Sized(w) && Placed(w) && 0 <= k < LEVELS && DueAt(y.expire, k) == w.time
    ensures Placed(Filed(w, y)) && !LostOnArrival(w.time, Sub(y.expire, w.time))
  {
    FiledPlaced(w, y);
    LeftAtDue(y.expire, k);
    var j := LevelFor(Sub(y.expire, w.time));
    if j >= 0 {
      RefiledLower(y.expire, k, j);
    }
    assert Add(w.time, Sub(y.expire, w.time)) == y.expire;
  }

  lemma {:induction false} FiledDueCounts(w: State, y: Timer, k: int, x: Timer)
    requires Sized(w) && Placed(w) && 0 <= k < LEVELS && DueAt(y.expire, k) == w.time
    ensures Live(Filed(w, y), x) == Live(w, x) + Times([y], x) && Lost(Filed(w, y), x) == Lost(w, x)
  {
    FiledDue(w, y, k);
    FiledCounts(w, y, x);
  }

  /** The row a tick empties: the one its time points at on the lowest level with a nonzero index. */
  lemma {:induction false} EmptiedReaches(ct: u32, k: int, i: int)
    requires ct != 0 && 0 <= i <= k < LEVELS && Turns(ct, k) && Slot(ct, k) != 0
    ensures EmptiedFrom(ct, i) == Row(k, Slot(ct, k))
    decreases k - i
  {
    if i < k {
      LowerZero(ct, k, i);
      EmptiedReaches(ct, k, i + 1);
    }
  }

  lemma {:induction false} EmptiedTurns(ct: u32, i: int)
    requires ct != 0 && 0 <= i < LEVELS && EmptiedFrom(ct, i) != -1
    ensures var r := EmptiedFrom(ct, i); Turns(ct, r / ROW) && Slot(ct, r / ROW) == r % ROW && !Stuck(r)
    decreases LEVELS - i
  {
    if i == 3 {
      assert ct / Span(3) < 64;
    } else if ct % Span(i) == 0 && Slot(ct, i) == 0 {
      EmptiedTurns(ct, i + 1);
    }
  }

  /** A row that holds timers which are due is the row the tick empties, and all its timers are due. */
  lemma EmptiedIsDue(ct: u32, r: int, x: Timer)
    requires 0 <= r < 256 && !Stuck(r) && Slot(x.expire, r / ROW) == r % ROW
             && Sub(DueAt(x.expire, r / ROW), ct) < ROW * Span(r / ROW)
    ensures r == Emptied(ct) <==> DueAt(x.expire, r / ROW) == ct
  {
    var k := r / ROW;
    if r == Emptied(ct) {
      if ct != 0 { EmptiedTurns(ct, 0); }
      DueNow(x.expire, ct, k);
    }
    if DueAt(x.expire, k) == ct {
      DueSlot(x.expire, k);
      if ct != 0 {
        TopZero(ct);
        EmptiedReaches(ct, k, 0);
      }
    }
  }

  lemma DueSlot(e: u32, k: int)
    requires 0 <= k < LEVELS
    ensures Turns(DueAt(e, k), k) && Slot(DueAt(e, k), k) == Slot(e, k)
  {
  }

  lemma EmptiedNotStuck(ct: u32)
    ensures !Stuck(Emptied(ct))
  {
    if ct != 0 && Emptied(ct) != -1 {
      EmptiedTurns(ct, 0);
    }
  }

  /** One tick later, every timer is still in place, except those of the row now due. */
  lemma TimePasses(w: State, r: int, x: Timer)
    requires 0 <= r < 256 && !Stuck(r) && RowOk(x, r, w.time)
    ensures r != Emptied(Add(w.time, 1)) ==> RowOk(x, r, Add(w.time, 1))
    ensures r == Emptied(Add(w.time, 1)) ==> DueAt(x.expire, r / ROW) == Add(w.time, 1)
  {
    EmptiedIsDue(Add(w.time, 1), r, x);
  }

  lemma AdvancedPlaced(w: State, w1: State)
    requires Settled(w) && Sized(w1) && w1.time == Add(w.time, 1) && w1.near == w.near
    requires forall r :: 0 <= r < 256 ==> w1.rows[r] == if r == Emptied(w1.time) then [] else w.rows[r]
    ensures Placed(w1)
  {
    forall i: int, x: Timer | 0 <= i < 256 && x in w1.near[i]
      ensures NearOk(x, i, w1.time)
    {
      assert NearOk(x, i, w.time);
      NearDue(x.expire, w.time);
    }
    forall r: int, x: Timer | 0 <= r < 256 && !Stuck(r) && x in w1.rows[r]
      ensures RowOk(x, r, w1.time)
    {
      TimePasses(w, r, x);
    }
  }

  lemma {:induction false} ClearedCounts(w: State, r: int, x: Timer)
    requires Sized(w) && 0 <= r < 256 && !Stuck(r)
    ensures var w' := w.(rows := w.rows[r := []]);
            Live(w', x) == Live(w, x) - Times(w.rows[r], x) && Lost(w', x) == Lost(w, x)
  {
    var m := Masked(w.rows);
    assert Masked(w.rows[r := []]) == m[r := []] && m[r] == w.rows[r];
    CountReplaced(m, r, [], x);
  }

  lemma ShiftedKeeps(w: State)
    requires Settled(w)
    ensures Placed(Shifted(w))
    ensures forall x :: Live(Shifted(w), x) == Live(w, x) && Lost(Shifted(w), x) == Lost(w, x)
  {
    var ct := Add(w.time, 1);
    var w1 := w.(time := ct);
    var r := Emptied(ct);
    if r == -1 {
      AdvancedPlaced(w, w1);
    } else {
      EmptiedNotStuck(ct);
      var w2 := w1.(rows := w1.rows[r := []]);
      AdvancedPlaced(w, w2);
      forall x
        ensures Live(w2, x) == Live(w, x) - Times(w.rows[r], x) && Lost(w2, x) == Lost(w, x)
      {
        ClearedCounts(w1, r, x);
      }
      forall x | x in w.rows[r]
        ensures DueAt(x.expire, r / ROW) == ct
      {
        TimePasses(w, r, x);
      }
      RefiledKeeps(w2, w.rows[r], r / ROW);
    }
  }

  /** What is dispatched is what expires now. */
  lemma {:induction false} ExecutedExact(w: State, x: Timer)
    requires Sized(w) && Placed(w)
    ensures Lost(Executed(w), x) == Lost(w, x)
    ensures Times(Due(w), x) == if x.expire == w.time then Live(w, x) else 0
    ensures Live(Executed(w), x) == if x.expire == w.time then 0 else Live(w, x)
  {
    CountReplaced(w.near, w.time % NEAR, [], x);
    if x in Due(w) {
      assert NearOk(x, w.time % NEAR, w.time);
      NearDue(x.expire, w.time);
    }
    if Live(Executed(w), x) > 0 {
      LiveLater(Executed(w), x);
    }
  }

  lemma LiveLater(w: State, x: Timer)
    requires Settled(w) && Live(w, x) > 0
    ensures x.expire != w.time
  {
    var i := Where(w.near, x);
    var r := Where(Masked(w.rows), x);
    if Count(w.near, x) > 0 {
      assert NearOk(x, i, w.time);
    } else {
      assert RowOk(x, r, w.time);
    }
  }

  /** timer_update: the clock advances by one; the timers dispatched are exactly the live ones that
      expire at the new time, each as often as it is held; all others stay. */
  lemma Tick(w: State)
    requires Settled(w)
    ensures var w' := Updated(w); var fired := Due(Shifted(Executed(w)));
            && Due(w) == [] && Settled(w')
            && (forall x :: Lost(w', x) == Lost(w, x))
            && (forall x :: Times(fired, x) == if x.expire == w'.time then Live(w, x) else 0)
            && (forall x :: Live(w', x) == if x.expire == w'.time then 0 else Live(w, x))
  {
    assert w.near[w.time % NEAR := []] == w.near;
    assert Executed(w) == w;
    ShiftedKeeps(w);
    forall x
      ensures Lost(Updated(w), x) == Lost(w, x)
      ensures Times(Due(Shifted(w)), x) == if x.expire == Updated(w).time then Live(w, x) else 0
      ensures Live(Updated(w), x) == if x.expire == Updated(w).time then 0 else Live(w, x)
    {
      ExecutedExact(Shifted(w), x);
    }
  }

  /** A new wheel holds nothing. */
  lemma CreatedSettled(x: Timer)
    ensures var w := State(seq(256, _ => []), seq(256, _ => []), 0); Settled(w) && Live(w, x) == 0 && Lost(w, x) == 0
  {
    var w := State(seq(256, _ => []), seq(256, _ => []), 0);
    var i := Where(w.near, x);
    var r := Where(Masked(w.rows), x);
  }

  // ---- whole runs ----

  /** add_timer with a positive distance, or one timer_update. */
  datatype Event = Start(away: u32, id: nat) | Elapse

  /** The timers one timer_execute dispatches, and the time it did so. */
  datatype Batch = Batch(at: u32, timers: seq<Timer>)

  function Step(w: State, e: Event): (r: (State, seq<Batch>))
    requires Sized(w)
    ensures Sized(r.0)
  {
    match e
    case Start(away, id) => (Filed(w, Timer(id, Add(w.time, away))), [])
    case Elapse =>
      var w1 := Shifted(Executed(w));
      (Executed(w1), [Batch(w.time, Due(w)), Batch(w1.time, Due(w1))])
  }

  function Run(w: State, es: seq<Event>): (r: (State, seq<Batch>))
    requires Sized(w)
    ensures Sized(r.0)
    decreases |es|
  {
    if es == [] then
      (w, [])
    else
      var (w1, out) := Step(w, es[0]);
      var (w2, more) := Run(w1, es[1..]);
      (w2, out + more)
  }

  function Ticks(es: seq<Event>): nat
  {
    if es == [] then 0 else (if es[0].Elapse? then 1 else 0) + Ticks(es[1..])
  }

  /** How often the run dispatched x. */
  function Fired(out: seq<Batch>, x: Timer): nat
  {
    if out == [] then 0 else Times(out[0].timers, x) + Fired(out[1..], x)
  }

  ghost predicate OnTime(out: seq<Batch>)
  {
    forall b, x :: b in out && x in b.timers ==> x.expire == b.at
  }

  lemma {:induction false} FiredJoined(a: seq<Batch>, b: seq<Batch>, x: Timer)
    ensures Fired(a + b, x) == Fired(a, x) + Fired(b, x)
    decreases |a|
  {
    if a == [] {
      assert a + b == b;
    } else {
      assert (a + b)[1..] == a[1..] + b;
      FiredJoined(a[1..], b, x);
    }
  }

  /** add_timer's argument is a positive int, and no other timer is given x's identity. */
  ghost predicate Proper(es: seq<Event>, x: Timer)
  {
    forall e :: e in es && e.Start? ==> 0 < e.away < HALF && e.id != x.id
  }

  lemma StartFate(w: State, away: u32, id: nat, x: Timer)
    requires Settled(w) && 0 < away < HALF && id != x.id
    ensures var w' := Step(w, Start(away, id)).0;
            Settled(w') && Lost(w', x) == Lost(w, x) && Live(w', x) == Live(w, x) && w'.time == w.time
  {
    var y := Timer(id, Add(w.time, away));
    FiledPlaced(w, y);
    FiledCounts(w, y, x);
  }

  lemma {:induction false} ElapseFate(w: State, x: Timer)
    requires Settled(w)
    ensures var (w', out) := Step(w, Elapse);
            && Settled(w') && OnTime(out) && Lost(w', x) == Lost(w, x) && w'.time == Add(w.time, 1)
            && (if x.expire == w'.time then Live(w', x) == 0 && Fired(out, x) == Live(w, x)
                else Live(w', x) == Live(w, x) && Fired(out, x) == 0)
  {
    Tick(w);
    var w1 := Shifted(Executed(w));
    var a, b := Batch(w.time, Due(w)), Batch(w1.time, Due(w1));
    FiredJoined([a], [b], x);
    assert [a][1..] == [] && [b][1..] == [];
    assert [a] + [b] == [a, b];
  }

  /** What one event does to x. */
  lemma {:induction false} StepFate(w: State, e: Event, x: Timer)
    requires Settled(w) && Proper([e], x)
    ensures var (w', out) := Step(w, e); var d := Sub(x.expire, w.time);
            && Settled(w') && OnTime(out) && Lost(w', x) == Lost(w, x)
            && w'.time == Add(w.time, if e.Elapse? then 1 else 0)
            && (Live(w, x) > 0 ==> d > 0)
            && (if e.Elapse? && d == 1 then Live(w', x) == 0 && Fired(out, x) == Live(w, x)
                else Live(w', x) == Live(w, x) && Fired(out, x) == 0)
  {
    if Live(w, x) > 0 {
      LiveLater(w, x);
    }
    if e.Start? {
      assert e in [e];
      StartFate(w, e.away, e.id, x);
    } else {
      ElapseFate(w, x);
    }
  }

  /** x, live with d ticks to go, fires at the d-th tick of whatever happens, and only then. */
  lemma {:induction false} Fate(w: State, es: seq<Event>, x: Timer)
    requires Settled(w) && Proper(es, x)
    ensures var (w', out) := Run(w, es); var d := Sub(x.expire, w.time);
            && Settled(w') && OnTime(out) && Lost(w', x) == Lost(w, x)
            && (Live(w, x) > 0 ==> d > 0)
            && Fired(out, x) == (if d <= Ticks(es) then Live(w, x) else 0)
            && Live(w', x) == Live(w, x) - Fired(out, x)
    decreases |es|
  {
    if es == [] {
      if Live(w, x) > 0 { LiveLater(w, x); }
    } else {
      assert [es[0]] + es[1..] == es;
      StepFate(w, es[0], x);
      var (w1, out) := Step(w, es[0]);
      var (w2, more) := Run(w1, es[1..]);
      assert Ticks([es[0]]) == if es[0].Elapse? then 1 else 0;
      Fate(w1, es[1..], x);
      FiredJoined(out, more, x);
    }
  }

  /** Exactness: a timer added with away ticks to go is dispatched once, by the away-th tick after
      that, at the time it expires, if and only if it was not filed into a slot no tick empties;
      otherwise it is never dispatched. */
  lemma {:induction false} AddedTimerFires(w: State, away: u32, id: nat, es: seq<Event>)
    requires Settled(w) && 0 < away < HALF
    requires var x := Timer(id, Add(w.time, away)); Live(w, x) == 0 && Proper(es, x)
    ensures var x := Timer(id, Add(w.time, away)); var (w', out) := Run(Filed(w, x), es);
            && Settled(w') && OnTime(out)
            && Fired(out, x) == if !LostOnArrival(w.time, away) && away <= Ticks(es) then 1 else 0
  {
    var x := Timer(id, Add(w.time, away));
    assert Sub(x.expire, w.time) == away;
    FiledPlaced(w, x);
    FiledCounts(w, x, x);
    Fate(Filed(w, x), es, x);
  }

  /** At time 1 a timer 16383 ticks away lands in slot 0 of t[0] and is lost; one tick earlier or
      256 ticks later it is not. */
  lemma LostExample()
    ensures LostOnArrival(1, 16383) && !LostOnArrival(0, 16383) && !LostOnArrival(257, 16383)
  {
  }
}
