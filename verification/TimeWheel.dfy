/** The hierarchical timing wheel: 256 near slots of one tick each, four levels of 64 slots that are
    emptied into lower ones as the clock passes them, all in 32-bit time that wraps. */
module TimeWheel {
  import opened U32
  import opened WheelTime

  /** id stands for the node's address. */
  datatype Timer = Timer(id: nat, expire: u32)

  type Lists = seq<seq<Timer>>

  /** rows holds t[4][64], level after level. */
  datatype State = State(near: Lists, rows: Lists, time: u32)

  function Row(k: int, i: int): (r: int)
    requires 0 <= k < LEVELS && 0 <= i < ROW
    ensures 0 <= r < 256 && r / ROW == k && r % ROW == i
  {
    k * ROW + i
  }

  ghost predicate Sized(w: State) { |w.near| == 256 && |w.rows| == 256 }

  // ---- what each operation does ----

  /** Append a node to the list at index i. */
  function Link(lists: Lists, i: int, x: Timer): (r: Lists)
    requires 0 <= i < |lists|
    ensures |r| == |lists|
  {
    lists[i := lists[i] + [x]]
  }

  function Filed(w: State, x: Timer): (r: State)
    requires Sized(w)
    ensures Sized(r) && r.time == w.time
  {
    var k := LevelFor(Sub(x.expire, w.time));
    if k == -1 then
      w.(near := Link(w.near, x.expire % NEAR, x))
    else
      w.(rows := Link(w.rows, Row(k, Slot(x.expire, k)), x))
  }

  function Refiled(w: State, list: seq<Timer>): (r: State)
    requires Sized(w)
    ensures Sized(r) && r.time == w.time
    decreases |list|
  {
    if list == [] then w else Refiled(Filed(w, list[0]), list[1..])
  }

  function Moved(w: State, r: int): (w': State)
    requires Sized(w) && 0 <= r < 256
    ensures Sized(w') && w'.time == w.time
  {
    Refiled(w.(rows := w.rows[r := []]), w.rows[r])
  }

  /** The row a tick to time ct != 0 empties, looking from level k up; -1 if none. */
  function EmptiedFrom(ct: u32, k: int): (r: int)
    requires 0 <= k < LEVELS && ct != 0
    ensures -1 <= r < 256
    decreases LEVELS - k
  {
    if ct % Span(k) != 0 then -1
    else if Slot(ct, k) != 0 || k == 3 then Row(k, Slot(ct, k))
    else EmptiedFrom(ct, k + 1)
  }

  function Emptied(ct: u32): (r: int)
    ensures -1 <= r < 256
  {
    if ct == 0 then Row(3, 0) else EmptiedFrom(ct, 0)
  }

  function Shifted(w: State): (r: State)
    requires Sized(w)
    ensures Sized(r) && r.time == Add(w.time, 1)
  {
    var ct := Add(w.time, 1);
    var w1 := w.(time := ct);
    if Emptied(ct) == -1 then w1 else Moved(w1, Emptied(ct))
  }

  /** What timer_execute dispatches, and what it leaves. */
  function Due(w: State): seq<Timer>
    requires Sized(w)
  {
    w.near[w.time % NEAR]
  }

  function Executed(w: State): (r: State)
    requires Sized(w)
    ensures Sized(r) && r.time == w.time
  {
    w.(near := w.near[w.time % NEAR := []])
  }

  /** timer_update: the state after it, and the timers it dispatches before and after the shift. */
  function Updated(w: State): (r: State)
    requires Sized(w)
    ensures Sized(r) && r.time == Add(w.time, 1)
  {
    Executed(Shifted(Executed(w)))
  }

  // ---- the code ----

  class Wheel {
    const near: array<seq<Timer>>
    const rows: array<seq<Timer>>
    var time: u32

    ghost predicate Valid()
    {
      near.Length == 256 && rows.Length == 256 && near != rows
    }

    ghost function Now(): (w: State)
      reads this, near, rows
      requires Valid()
      ensures Sized(w)
    {
      State(near[..], rows[..], time)
    }

    /** timer_create_timer */
    constructor ()
      ensures Valid() && fresh(near) && fresh(rows)
      ensures Now() == State(seq(256, _ => []), seq(256, _ => []), 0)
    {
      near := new seq<Timer>[256](_ => []);
      rows := new seq<Timer>[256](_ => []);
      time := 0;
    }

    method AddNode(x: Timer)
      requires Valid()
      modifies near, rows
      ensures Now() == Filed(old(Now()), x)
    {
      var msec := Sub(x.expire, time);
      if msec < 0x100 {
        near[x.expire % 0x100] := near[x.expire % 0x100] + [x];
      } else if msec < 0x4000 {
        var i := Row(0, (x.expire / 0x100) % 64);
        rows[i] := rows[i] + [x];
      } else if msec < 0x10_0000 {
        var i := Row(1, (x.expire / 0x4000) % 64);
        rows[i] := rows[i] + [x];
      } else if msec < 0x400_0000 {
        var i := Row(2, (x.expire / 0x10_0000) % 64);
        rows[i] := rows[i] + [x];
      } else {
        var i := Row(3, (x.expire / 0x400_0000) % 64);
        rows[i] := rows[i] + [x];
      }
    }

    /** add_timer; called tells that the callback ran at once and no node was kept. */
    method AddTimer(away: int, id: nat) returns (called: bool)
      requires Valid() && -HALF <= away < HALF
      modifies near, rows
      ensures called <==> away <= 0
      ensures Now() == if called then old(Now()) else Filed(old(Now()), Timer(id, Add(old(time), away)))
    {
      if away <= 0 {
        return true;
      }
      AddNode(Timer(id, Add(time, away)));
      called := false;
    }

    method MoveList(k: int, i: int)
      requires Valid() && 0 <= k < LEVELS && 0 <= i < ROW
      modifies near, rows
      ensures Now() == Moved(old(Now()), Row(k, i))
    {
      var current := rows[Row(k, i)];
      rows[Row(k, i)] := [];
      while current != []
        invariant Refiled(Now(), current) == Moved(old(Now()), Row(k, i))
        decreases |current|
      {
        var x := current[0];
        current := current[1..];
        AddNode(x);
      }
    }

    method Shift()
      requires Valid()
      modifies this`time, near, rows
      ensures Now() == Shifted(old(Now()))
    {
      var mask := 0x100;
      time := Add(time, 1);
      var ct := time;
      ghost var w1 := Now();
      if ct == 0 {
        MoveList(3, 0);
        return;
      }
      var t := ct / 0x100;
      var i := 0;
      while ct % mask == 0
        invariant 0 <= i < LEVELS && mask == Span(i) && t == ct / mask
        invariant Emptied(ct) == EmptiedFrom(ct, i) && Now() == w1
        decreases LEVELS - i
      {
        var idx := t % 64;
        if idx != 0 {
          MoveList(i, idx);
          return;
        }
        TopSlot(ct, i);
        mask := mask * 64;
        t := t / 64;
        i := i + 1;
      }
    }

    /** timer_execute; the callbacks run on fired while the lock is released. */
    method Execute() returns (fired: seq<Timer>)
      requires Valid()
      modifies near
      ensures fired == Due(old(Now())) && Now() == Executed(old(Now()))
    {
      var idx := time % 0x100;
      fired := [];
      while near[idx] != []
        invariant fired + near[idx] == Due(old(Now())) && (fired == [] || near[idx] == [])
        invariant forall j :: 0 <= j < 256 && j != idx ==> near[j] == old(near[j])
        decreases |near[idx]|
      {
        fired := fired + near[idx];
        near[idx] := [];
      }
    }

    /** timer_update */
    method Update() returns (early: seq<Timer>, fired: seq<Timer>)
      requires Valid()
      modifies this`time, near, rows
      ensures early == Due(old(Now())) && fired == Due(Shifted(Executed(old(Now()))))
      ensures Now() == Updated(old(Now()))
    {
      early := Execute();
      Shift();
      fired := Execute();
    }
  }

  /** Only level 3 is left when all lower parts of a nonzero time are zero. */
  lemma TopSlot(ct: u32, k: int)
    requires 0 <= k < LEVELS && ct != 0 && ct % Span(k) == 0 && (ct / Span(k)) % ROW == 0
    ensures k < 3 && ct / Span(k) / 64 == ct / Span(k + 1)
  {
  }
}
