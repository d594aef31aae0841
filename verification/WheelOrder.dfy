/** In which order timers of one expiry time fire. A slot keeps them in the order they were filed, and a
    cascade keeps that order; but a timer added late, straight into a lower slot, comes before those that
    still wait higher up. */
module WheelOrder {
  import opened U32
  import opened WheelTime
  import opened TimeWheel
  import opened WheelExact
  import opened Seqs

  function Only(list: seq<Timer>, e: u32): seq<Timer>
  {
    if list == [] then [] else
      Only(list[..|list| - 1], e) + if list[|list| - 1].expire == e then [list[|list| - 1]] else []
  }

  /** The timers of expiry e on level k that some tick will reach; level -1 is near. */
  function Part(w: State, e: u32, k: int): seq<Timer>
    requires Sized(w) && -1 <= k < LEVELS
  {
    if k == -1 then Only(w.near[e % NEAR], e)
    else if Stuck(Row(k, Slot(e, k))) then []
    else Only(w.rows[Row(k, Slot(e, k))], e)
  }

  /** Near first, then level after level. */
  function Parts(w: State, e: u32): (r: seq<seq<Timer>>)
    requires Sized(w)
    ensures |r| == 5 && forall k :: -1 <= k < LEVELS ==> r[k + 1] == Part(w, e, k)
  {
    [Part(w, e, -1), Part(w, e, 0), Part(w, e, 1), Part(w, e, 2), Part(w, e, 3)]
  }

  /** All of them, in the order in which they will fire. */
  function Order(w: State, e: u32): seq<Timer>
    requires Sized(w)
  {
    Concat(Parts(w, e))
  }

  /** Those up to level k, and those above it. */
  function Upto(w: State, e: u32, k: int): seq<Timer>
    requires Sized(w) && -1 <= k < LEVELS
  {
    Concat(Parts(w, e)[..k + 2])
  }

  function Above(w: State, e: u32, k: int): seq<Timer>
    requires Sized(w) && -1 <= k < LEVELS
  {
    Concat(Parts(w, e)[k + 2..])
  }

  lemma {:induction false} OnlyJoined(a: seq<Timer>, b: seq<Timer>, e: u32)
    ensures Only(a + b, e) == Only(a, e) + Only(b, e)
    decreases |b|
  {
    if b == [] {
      assert a + b == a;
    } else {
      var n := |b| - 1;
      assert (a + b)[..|a + b| - 1] == a + b[..n];
      OnlyJoined(a, b[..n], e);
    }
  }

  lemma {:induction false} OnlyNone(list: seq<Timer>, e: u32)
    requires forall x :: x in list ==> x.expire != e
    ensures Only(list, e) == []
  {
    if list != [] { OnlyNone(list[..|list| - 1], e); }
  }

  lemma {:induction false} OnlyAll(list: seq<Timer>, e: u32)
    requires forall x :: x in list ==> x.expire == e
    ensures Only(list, e) == list
  {
    if list != [] { OnlyAll(list[..|list| - 1], e); }
  }

  lemma {:induction false} OnlyIn(list: seq<Timer>, e: u32, x: Timer)
    ensures x in Only(list, e) <==> x in list && x.expire == e
  {
    if list != [] { OnlyIn(list[..|list| - 1], e, x); }
  }

  lemma {:induction false} Split(w: State, e: u32, k: int)
    requires Sized(w) && -1 <= k < LEVELS
    ensures Order(w, e) == Upto(w, e, k) + Above(w, e, k)
  {
    ConcatSplit(Parts(w, e), k + 2);
  }

  lemma {:induction false} SameParts(w: State, w': State, e: u32)
    requires Sized(w) && Sized(w') && forall k :: -1 <= k < LEVELS ==> Part(w, e, k) == Part(w', e, k)
    ensures Parts(w, e) == Parts(w', e) && Order(w, e) == Order(w', e)
  {
  }

  lemma {:induction false} NoneAbove(w: State, e: u32, k: int)
    requires Sized(w) && -1 <= k < LEVELS && forall i :: k < i < LEVELS ==> Part(w, e, i) == []
    ensures Above(w, e, k) == [] && Order(w, e) == Upto(w, e, k)
  {
    ConcatNone(Parts(w, e)[k + 2..]);
    Split(w, e, k);
  }

  // ---- filing ----

  lemma {:induction false} FiledPart(w: State, x: Timer, e: u32, k: int)
    requires Sized(w) && -1 <= k < LEVELS
    ensures Part(Filed(w, x), e, k)
            == if e == x.expire && k == LevelFor(Sub(e, w.time)) && !LostOnArrival(w.time, Sub(e, w.time))
               then Part(w, e, k) + [x] else Part(w, e, k)
  {
    var k0 := LevelFor(Sub(x.expire, w.time));
    assert Add(w.time, Sub(x.expire, w.time)) == x.expire;
    if k == k0 {
      if k == -1 {
        OnlyJoined(w.near[x.expire % NEAR], [x], e);
      } else {
        StuckRow(k, Slot(x.expire, k));
        OnlyJoined(w.rows[Row(k, Slot(x.expire, k))], [x], e);
      }
      assert [x][..0] == [];
    }
  }

  /** A new timer joins behind those of its expiry on its own level and below, before those above; one that is
      lost changes nothing, and neither does a timer of another expiry. */
  lemma {:induction false} Joins(w: State, x: Timer, e: u32)
    requires Sized(w)
    ensures var k := LevelFor(Sub(x.expire, w.time));
            Order(Filed(w, x), e) == if e == x.expire && !LostOnArrival(w.time, Sub(e, w.time))
                                     then Upto(w, e, k) + [x] + Above(w, e, k) else Order(w, e)
  {
    var k := LevelFor(Sub(x.expire, w.time));
    var a, b := Parts(w, e), Parts(Filed(w, x), e);
    forall i | 0 <= i < 5
      ensures b[i] == if i == k + 1 && e == x.expire && !LostOnArrival(w.time, Sub(e, w.time)) then a[i] + [x] else a[i]
    {
      FiledPart(w, x, e, i - 1);
      assert a[i - 1 + 1] == Part(w, e, i - 1) && b[i - 1 + 1] == Part(Filed(w, x), e, i - 1);
    }
    if e == x.expire && !LostOnArrival(w.time, Sub(e, w.time)) {
      ConcatGrown(a, b, k + 1, x);
    } else {
      assert a == b;
    }
  }

  // ---- one tick ----

  /** When a slot that holds e is due, all other timers of e sit at or below where e is filed now. */
  lemma {:induction false} DueIsLast(w: State, e: u32, k: int)
    requires Sized(w) && Placed(w) && 0 <= k < LEVELS && DueAt(e, k) == w.time && Part(w, e, k) == []
    ensures forall i :: LevelFor(Sub(e, w.time)) < i < LEVELS ==> Part(w, e, i) == []
  {
    LeftAtDue(e, k);
    forall i | LevelFor(Sub(e, w.time)) < i < LEVELS
      ensures Part(w, e, i) == []
    {
      if i < k {
        PassedOver(e, k, i);
      } else if i > k {
        NotYetAbove(w, e, k, i);
      }
    }
  }

  lemma {:induction false} PassedOver(e: u32, k: int, i: int)
    requires 0 <= i < k < LEVELS && LevelFor(e % Span(k)) < i
    ensures Stuck(Row(i, Slot(e, i)))
  {
    SubSlot(e, k, i);
    StuckRow(i, Slot(e, i));
  }

  lemma {:induction false} NotYetAbove(w: State, e: u32, k: int, i: int)
    requires Sized(w) && Placed(w) && 0 <= k < i < LEVELS && DueAt(e, k) == w.time
    ensures Part(w, e, i) == []
  {
    var r := Row(i, Slot(e, i));
    forall x | !Stuck(r) && x in w.rows[r]
      ensures x.expire != e
    {
      assert RowOk(x, r, w.time);
      if x.expire == e { EarlierDue(e, k, i); }
    }
    if !Stuck(r) { OnlyNone(w.rows[r], e); }
  }

  /** A higher slot is due no later than a lower one, so its time has passed when the lower one's comes. */
  lemma {:induction false} EarlierDue(e: u32, k: int, i: int)
    requires 0 <= k < i < LEVELS
    ensures Sub(DueAt(e, i), DueAt(e, k)) == 0 || Sub(DueAt(e, i), DueAt(e, k)) > Sub(e, DueAt(e, k))
  {
    assert e % Span(k) < Span(k) && e % Span(i) < Span(i);
    assert e % Span(k) <= e % Span(i) by { Nested(e, k, i); }
  }

  lemma {:induction false} Nested(e: u32, k: int, i: int)
    requires 0 <= k < i < LEVELS
    ensures e % Span(k) <= e % Span(i)
  {
    var c := if i == k + 1 then 64 else if i == k + 2 then 0x1000 else 0x4_0000;
    assert Span(i) == Span(k) * c;
    RestOfRest(e, Span(k), c);
  }

  lemma {:induction false} RestOfRest(e: int, s: int, c: int)
    requires s > 0 && c > 0 && s * c > 0
    ensures e % s <= e % (s * c)
  {
    var t := e / s - c * (e / (s * c));
    MulAssoc(s, c, e / (s * c));
    assert s * t == e % (s * c) - e % s;
    assert t <= -1 ==> s * t <= -s;
  }

  lemma {:induction false} StillEmpty(w: State, y: Timer, k: int, e: u32)
    requires Sized(w) && 0 <= k < LEVELS && DueAt(y.expire, k) == w.time
    ensures Part(Filed(w, y), e, k) == Part(w, e, k)
  {
    FiledPart(w, y, e, k);
    LeftAtDue(y.expire, k);
    var j := LevelFor(Sub(y.expire, w.time));
    if j >= 0 { RefiledLower(y.expire, k, j); }
  }

  lemma {:induction false} JoinsLast(w: State, y: Timer)
    requires Sized(w) && !LostOnArrival(w.time, Sub(y.expire, w.time))
    requires forall i :: LevelFor(Sub(y.expire, w.time)) < i < LEVELS ==> Part(w, y.expire, i) == []
    ensures Order(Filed(w, y), y.expire) == Order(w, y.expire) + [y]
  {
    var j := LevelFor(Sub(y.expire, w.time));
    Joins(w, y, y.expire);
    NoneAbove(w, y.expire, j);
    assert Upto(w, y.expire, j) + [y] + [] == Upto(w, y.expire, j) + [y];
  }

  lemma {:induction false} DueJoins(w: State, y: Timer, k: int, e: u32)
    requires Sized(w) && Placed(w) && 0 <= k < LEVELS && DueAt(y.expire, k) == w.time
    requires DueAt(e, k) == w.time ==> Part(w, e, k) == []
    ensures Order(Filed(w, y), e) == Order(w, e) + Only([y], e)
    ensures DueAt(e, k) == w.time ==> Part(Filed(w, y), e, k) == []
  {
    StillEmpty(w, y, k, e);
    assert [y][..0] == [];
    if e == y.expire {
      FiledDue(w, y, k);
      DueIsLast(w, e, k);
      JoinsLast(w, y);
    } else {
      Joins(w, y, e);
      assert Order(w, e) + [] == Order(w, e);
    }
  }

  /** A cascade puts the timers of a slot behind the others of their expiry, in the order they were in. */
  lemma {:induction false} RefiledOrder(w: State, list: seq<Timer>, k: int, e: u32)
    requires Sized(w) && Placed(w) && 0 <= k < LEVELS && forall x :: x in list ==> DueAt(x.expire, k) == w.time
    requires DueAt(e, k) == w.time ==> Part(w, e, k) == []
    ensures Order(Refiled(w, list), e) == Order(w, e) + Only(list, e)
    decreases |list|
  {
    if list == [] {
      assert Order(w, e) + [] == Order(w, e);
    } else {
      FiledDue(w, list[0], k);
      DueJoins(w, list[0], k, e);
      RefiledOrder(Filed(w, list[0]), list[1..], k, e);
      assert list == [list[0]] + list[1..];
      OnlyJoined([list[0]], list[1..], e);
      Assoc(Order(w, e), Only([list[0]], e), Only(list[1..], e));
    }
  }

  /** The same but for row r, which w2 has emptied. */
  ghost predicate Emptier(w: State, w2: State, r: int)
  {
    && Sized(w) && Sized(w2) && 0 <= r < 256 && !Stuck(r) && w2.near == w.near && w2.rows[r] == []
    && forall i :: 0 <= i < 256 && i != r ==> w2.rows[i] == w.rows[i]
  }

  /** The slot a tick empties holds the last timers of their expiry. */
  lemma {:induction false} SlotIsLast(w: State, w2: State, r: int, e: u32)
    requires Settled(w) && Emptier(w, w2, r) && Placed(w2) && w2.time == Add(w.time, 1) && r == Emptied(w2.time)
    ensures Order(w, e) == Order(w2, e) + Only(w.rows[r], e)
    ensures DueAt(e, r / ROW) == w2.time ==> Part(w2, e, r / ROW) == []
  {
    if DueAt(e, r / ROW) == w2.time {
      DueThere(e, r, w2.time);
      SlotTaken(w, w2, r, e);
    } else {
      forall x | x in w.rows[r] ensures x.expire != e { TimePasses(w, r, x); }
      OnlyNone(w.rows[r], e);
      Untouched(w, w2, r, e);
      assert Order(w, e) + [] == Order(w, e);
    }
  }

  lemma {:induction false} Untouched(w: State, w2: State, r: int, e: u32)
    requires Emptier(w, w2, r) && Only(w.rows[r], e) == []
    ensures Order(w, e) == Order(w2, e)
  {
    forall i | -1 <= i < LEVELS ensures Part(w, e, i) == Part(w2, e, i) {
    }
    SameParts(w, w2, e);
  }

  lemma {:induction false} SlotTaken(w: State, w2: State, r: int, e: u32)
    requires Emptier(w, w2, r) && Placed(w2) && Row(r / ROW, Slot(e, r / ROW)) == r && DueAt(e, r / ROW) == w2.time
    ensures Order(w, e) == Order(w2, e) + Only(w.rows[r], e) && Part(w2, e, r / ROW) == []
  {
    var k := r / ROW;
    forall i | -1 <= i < LEVELS && i != k ensures Part(w, e, i) == Part(w2, e, i) && (i > k ==> Part(w, e, i) == []) {
      PartElsewhere(w, w2, r, e, i);
      if i > k { NotYetAbove(w2, e, k, i); }
    }
    LastEmptied(Parts(w, e), Parts(w2, e), k + 1);
  }

  lemma {:induction false} PartElsewhere(w: State, w2: State, r: int, e: u32, i: int)
    requires Emptier(w, w2, r) && -1 <= i < LEVELS && i != r / ROW
    ensures Part(w, e, i) == Part(w2, e, i)
  {
  }

  lemma {:induction false} LastEmptied<T>(a: seq<seq<T>>, b: seq<seq<T>>, n: nat)
    requires n < |a| == |b| && a[..n] == b[..n] && b[n] == []
    requires forall i :: n < i < |a| ==> a[i] == [] && b[i] == []
    ensures Concat(a) == Concat(b) + a[n]
  {
    ConcatSplit(a, n + 1);
    ConcatSplit(b, n + 1);
    ConcatNone(a[n + 1..]);
    ConcatNone(b[n + 1..]);
    assert a[..n + 1] == a[..n] + [a[n]] && b[..n + 1] == a[..n] + [b[n]];
    ConcatSnoc(a[..n], a[n]);
    ConcatSnoc(a[..n], b[n]);
  }

  /** What is due on a level at a tick is in the slot the tick empties. */
  lemma {:induction false} DueThere(e: u32, r: int, ct: u32)
    requires 0 <= r < 256 && !Stuck(r) && r == Emptied(ct) && DueAt(e, r / ROW) == ct
    ensures Row(r / ROW, Slot(e, r / ROW)) == r
  {
    DueSlot(e, r / ROW);
    if ct != 0 { EmptiedTurns(ct, 0); }
  }

  lemma {:induction false} ShiftedOrder(w: State, e: u32)
    requires Settled(w)
    ensures Order(Shifted(w), e) == Order(w, e)
  {
    var ct := Add(w.time, 1);
    var r := Emptied(ct);
    if r == -1 {
      SameParts(w, w.(time := ct), e);
    } else {
      EmptiedNotStuck(ct);
      var w2 := State(w.near, w.rows[r := []], ct);
      AdvancedPlaced(w, w2);
      SlotIsLast(w, w2, r, e);
      forall x | x in w.rows[r] ensures DueAt(x.expire, r / ROW) == ct { TimePasses(w, r, x); }
      RefiledOrder(w2, w.rows[r], r / ROW, e);
    }
  }

  /** Once their time has come, all timers of an expiry are in the slot that is dispatched, and nothing else is. */
  lemma {:induction false} DueIsOrder(w: State)
    requires Sized(w) && Placed(w)
    ensures Due(w) == Order(w, w.time)
  {
    var now := w.time;
    forall x | x in Due(w) ensures x.expire == now {
      assert NearOk(x, now % NEAR, now);
      NearDue(x.expire, now);
    }
    OnlyAll(Due(w), now);
    forall i | -1 < i < LEVELS ensures Part(w, now, i) == [] {
      var r := Row(i, Slot(now, i));
      forall x | !Stuck(r) && x in w.rows[r] ensures x.expire != now { assert RowOk(x, r, now); }
      if !Stuck(r) { OnlyNone(w.rows[r], now); }
    }
    NoneAbove(w, now, -1);
    assert Parts(w, now)[..1] == [Due(w)] && [Due(w)][1..] == [];
    assert Concat([Due(w)]) == Due(w) + [];
  }

  lemma {:induction false} ExecutedOrder(w: State, e: u32)
    requires Sized(w) && Placed(w) && e != w.time
    ensures Order(Executed(w), e) == Order(w, e)
  {
    if e % NEAR == w.time % NEAR {
      forall x | x in Due(w) ensures x.expire != e {
        assert NearOk(x, w.time % NEAR, w.time);
        NearDue(x.expire, w.time);
      }
      OnlyNone(Due(w), e);
    }
    SameParts(w, Executed(w), e);
  }

  /** timer_update dispatches the timers of the new time in their order, and leaves all other orders alone. */
  lemma {:induction false} TickOrder(w: State, e: u32)
    requires Settled(w)
    ensures Due(Shifted(Executed(w))) == Order(w, Add(w.time, 1))
    ensures e != Add(w.time, 1) ==> Order(Updated(w), e) == Order(w, e)
  {
    assert w.near[w.time % NEAR := []] == w.near;
    assert Executed(w) == w;
    ShiftedKeeps(w);
    ShiftedOrder(w, Add(w.time, 1));
    DueIsOrder(Shifted(w));
    if e != Add(w.time, 1) {
      ShiftedOrder(w, e);
      ExecutedOrder(Shifted(w), e);
    }
  }

  // ---- whole runs ----

  ghost predicate Before(list: seq<Timer>, x: Timer, y: Timer)
  {
    exists i, j :: 0 <= i < j < |list| && list[i] == x && list[j] == y
  }

  lemma {:induction false} BeforeStill(a: seq<Timer>, z: Timer, b: seq<Timer>, x: Timer, y: Timer)
    requires Before(a + b, x, y)
    ensures Before(a + [z] + b, x, y)
  {
    var i, j :| 0 <= i < j < |a + b| && (a + b)[i] == x && (a + b)[j] == y;
    var i', j' := if i < |a| then i else i + 1, if j < |a| then j else j + 1;
    assert (a + [z] + b)[i'] == x && (a + [z] + b)[j'] == y;
  }

  ghost predicate FiredSo(out: seq<Batch>, e: u32, x: Timer, y: Timer)
  {
    exists i :: 0 <= i < |out| && out[i].at == e && Before(out[i].timers, x, y)
  }

  lemma {:induction false} OrderedLive(w: State, e: u32, x: Timer)
    requires Settled(w) && x in Order(w, e)
    ensures x.expire == e && e != w.time
  {
    var i: int := ConcatIn(Parts(w, e), x);
    assert x in Part(w, e, i - 1);
    if i == 0 {
      OnlyIn(w.near[e % NEAR], e, x);
      assert NearOk(x, e % NEAR, w.time);
    } else {
      OnlyIn(w.rows[Row(i - 1, Slot(e, i - 1))], e, x);
      assert RowOk(x, Row(i - 1, Slot(e, i - 1)), w.time);
    }
  }

  lemma {:induction false} StepOrder(w: State, ev: Event, x: Timer, y: Timer, e: u32)
    requires Settled(w) && Before(Order(w, e), x, y) && (ev.Start? ==> 0 < ev.away < HALF)
    ensures Settled(Step(w, ev).0) && e != w.time
    ensures if ev.Elapse? && e == Add(w.time, 1) then FiredSo(Step(w, ev).1, e, x, y)
            else Before(Order(Step(w, ev).0, e), x, y)
  {
    OrderedLive(w, e, x);
    match ev
    case Start(away, id) =>
      var z := Timer(id, Add(w.time, away));
      assert Sub(z.expire, w.time) == away;
      FiledPlaced(w, z);
      Joins(w, z, e);
      var k := LevelFor(away);
      Split(w, e, k);
      BeforeStill(Upto(w, e, k), z, Above(w, e, k), x, y);
    case Elapse =>
      Tick(w);
      TickOrder(w, e);
      var out := Step(w, ev).1;
      assert out[1].at == Add(w.time, 1) && out[1].timers == Due(Shifted(Executed(w)));
  }

  lemma {:induction false} FiredSoJoined(a: seq<Batch>, b: seq<Batch>, e: u32, x: Timer, y: Timer)
    requires FiredSo(a, e, x, y) || FiredSo(b, e, x, y)
    ensures FiredSo(a + b, e, x, y)
  {
    if FiredSo(a, e, x, y) {
      var i :| 0 <= i < |a| && a[i].at == e && Before(a[i].timers, x, y);
      assert (a + b)[i] == a[i];
    } else {
      var i :| 0 <= i < |b| && b[i].at == e && Before(b[i].timers, x, y);
      assert (a + b)[|a| + i] == b[i];
    }
  }

  /** Whatever happens, two timers of one expiry keep their order and are dispatched together in it. */
  lemma {:induction false} KeepsOrder(w: State, es: seq<Event>, x: Timer, y: Timer, e: u32)
    requires Settled(w) && Before(Order(w, e), x, y)
    requires forall i :: 0 <= i < |es| && es[i].Start? ==> 0 < es[i].away < HALF
    ensures var (w', out) := Run(w, es);
            if Sub(e, w.time) <= Ticks(es) then FiredSo(out, e, x, y) else Before(Order(w', e), x, y)
    decreases |es|
  {
    if es == [] {
      OrderedLive(w, e, x);
    } else {
      StepOrder(w, es[0], x, y, e);
      var (w1, out) := Step(w, es[0]);
      var (w2, more) := Run(w1, es[1..]);
      if es[0].Elapse? && e == Add(w.time, 1) {
        FiredSoJoined(out, more, e, x, y);
      } else {
        KeepsOrder(w1, es[1..], x, y, e);
        if Sub(e, w1.time) <= Ticks(es[1..]) { FiredSoJoined(out, more, e, x, y); }
      }
    }
  }

  lemma {:induction false} LastOf<T>(parts: seq<seq<T>>, p: seq<T>, x: T)
    requires parts != [] && parts[|parts| - 1] == p + [x]
    ensures Concat(parts) != [] && Concat(parts)[|Concat(parts)| - 1] == x
  {
    var n := |parts| - 1;
    assert parts == parts[..n] + [parts[n]];
    ConcatSnoc(parts[..n], parts[n]);
  }

  /** Two timers added at one time for one expiry fire in the order they were added. */
  lemma {:induction false} FirstInFirstOut(w: State, away: u32, a: nat, b: nat, es: seq<Event>)
    requires Settled(w) && 0 < away < HALF && !LostOnArrival(w.time, away) && away <= Ticks(es)
    requires forall i :: 0 <= i < |es| && es[i].Start? ==> 0 < es[i].away < HALF
    ensures var e := Add(w.time, away);
            FiredSo(Run(Filed(Filed(w, Timer(a, e)), Timer(b, e)), es).1, e, Timer(a, e), Timer(b, e))
  {
    var e := Add(w.time, away);
    var x, y := Timer(a, e), Timer(b, e);
    assert Sub(e, w.time) == away;
    FiledPlaced(w, x);
    FiledPlaced(Filed(w, x), y);
    InTurn(w, x, y);
    KeepsOrder(Filed(Filed(w, x), y), es, x, y, e);
  }

  lemma {:induction false} InTurn(w: State, x: Timer, y: Timer)
    requires Sized(w) && x.expire == y.expire && !LostOnArrival(w.time, Sub(x.expire, w.time))
    ensures Before(Order(Filed(Filed(w, x), y), x.expire), x, y)
  {
    var e, w1 := x.expire, Filed(w, x);
    var k := LevelFor(Sub(e, w.time));
    NowLast(w, x);
    Joins(w1, y, e);
    LastThenNew(Upto(w1, e, k), y, Above(w1, e, k));
  }

  lemma {:induction false} NowLast(w: State, x: Timer)
    requires Sized(w) && !LostOnArrival(w.time, Sub(x.expire, w.time))
    ensures var u := Upto(Filed(w, x), x.expire, LevelFor(Sub(x.expire, w.time))); u != [] && u[|u| - 1] == x
  {
    var e, w1 := x.expire, Filed(w, x);
    var k := LevelFor(Sub(e, w.time));
    FiledPart(w, x, e, k);
    assert Parts(w1, e)[k + 1] == Part(w1, e, k);
    LastOf(Parts(w1, e)[..k + 2], Part(w, e, k), x);
  }

  lemma {:induction false} LastThenNew(u: seq<Timer>, y: Timer, v: seq<Timer>)
    requires u != []
    ensures Before(u + [y] + v, u[|u| - 1], y)
  {
    var list := u + [y] + v;
    assert list[|u| - 1] == u[|u| - 1] && list[|u|] == y;
  }

  /** A timer added later fires after one that is there exactly when that one does not sit on a higher level. */
  lemma {:induction false} LaterExact(w: State, x: Timer, y: Timer)
    requires Sized(w) && x.expire == y.expire && !LostOnArrival(w.time, Sub(y.expire, w.time))
    requires x in Order(w, x.expire) && y !in Order(w, x.expire)
    ensures var e := x.expire; var k := LevelFor(Sub(e, w.time));
            && (Before(Order(Filed(w, y), e), x, y) <==> x in Upto(w, e, k))
            && (Before(Order(Filed(w, y), e), y, x) <==> x in Above(w, e, k))
  {
    var e, k := x.expire, LevelFor(Sub(x.expire, w.time));
    Joins(w, y, e);
    Split(w, e, k);
    OneNew(Upto(w, e, k), y, Above(w, e, k), x);
  }

  lemma {:induction false} OneNew(a: seq<Timer>, y: Timer, b: seq<Timer>, x: Timer)
    requires y !in a + b && x in a + b
    ensures Before(a + [y] + b, x, y) <==> x in a
    ensures Before(a + [y] + b, y, x) <==> x in b
  {
    var list := a + [y] + b;
    assert forall i :: 0 <= i < |list| && list[i] == y ==> i == |a|;
    if x in a {
      var i :| 0 <= i < |a| && a[i] == x;
      assert list[i] == x && list[|a|] == y;
    }
    if x in b {
      var i :| 0 <= i < |b| && b[i] == x;
      assert list[|a|] == y && list[|a| + 1 + i] == x;
    }
  }

  /** A timer started 255 ticks ahead overtakes one that was started 256 ticks ahead one tick before. */
  lemma {:induction false} LaterOvertakes()
    ensures var w := State(seq(256, _ => []), seq(256, _ => []), 0);
            var w' := Run(w, [Start(256, 0), Elapse, Start(255, 1)]).0;
            Order(w', 256) == [Timer(1, 256), Timer(0, 256)]
  {
    var w := State(seq(256, _ => []), seq(256, _ => []), 0);
    var es := [Start(256, 0), Elapse, Start(255, 1)];
    var x, y := Timer(0, 256), Timer(1, 256);
    assert [] + [x] == [x] && [] + [y] == [y];
    var a := Step(w, es[0]).0;
    assert a == State(w.near, w.rows[1 := [x]], 0);
    var b := Step(a, es[1]).0;
    assert b == State(w.near, a.rows, 1);
    var c := Step(b, es[2]).0;
    assert c == State(w.near[0 := [y]], a.rows, 1);
    assert es[1..] == [Elapse, Start(255, 1)] && es[1..][1..] == [Start(255, 1)] && es[1..][1..][1..] == [];
    assert Run(w, es).0 == c;
    assert [x][..0] == [] && [y][..0] == [];
    assert Parts(c, 256) == [[y], [x], [], [], []];
    TwoOnly(Parts(c, 256), y, x);
  }

  lemma {:induction false} TwoOnly<T>(parts: seq<seq<T>>, y: T, x: T)
    requires parts == [[y], [x], [], [], []]
    ensures Concat(parts) == [y, x]
  {
    ConcatNone(parts[2..]);
    ConcatSplit(parts, 2);
    assert parts[..2] == [] + [[y]] + [[x]];
    ConcatSnoc([[y]], [x]);
    ConcatSnoc([], [y]);
    assert [] + [[y]] == [[y]];
  }
}
