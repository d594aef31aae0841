/** The timing wheel's arithmetic: which slot of which level an expiry time falls into, when that
    slot is next emptied, and which slot a tick empties. */
module WheelTime {
  import opened U32

  const NEAR: int := 0x100
  const LEVELS: int := 4
  const ROW: int := 64

  /** The ticks one slot of level k spans. */
  function Span(k: int): (s: int)
    requires 0 <= k < LEVELS
    ensures s == 0x100 || s == 0x4000 || s == 0x10_0000 || s == 0x400_0000
  {
    if k == 0 then 0x100 else if k == 1 then 0x4000 else if k == 2 then 0x10_0000 else 0x400_0000
  }

  /** The index of time e at level k. */
  function Slot(e: u32, k: int): (i: int)
    requires 0 <= k < LEVELS
    ensures 0 <= i < ROW
  {
    (e / Span(k)) % ROW
  }

  /** The moment the slot that holds e at level k is due. */
  function DueAt(e: u32, k: int): u32
    requires 0 <= k < LEVELS
  {
    e - e % Span(k)
  }

  /** The level add_node picks for a timer this many ticks away; -1 stands for near. */
  function LevelFor(away: u32): (k: int)
    ensures -1 <= k < LEVELS
    ensures k == -1 <==> away < NEAR
    ensures k >= 0 ==> Span(k) <= away && (k < 3 ==> away < ROW * Span(k))
  {
    if away < 0x100 then -1 else if away < 0x4000 then 0 else if away < 0x10_0000 then 1
    else if away < 0x400_0000 then 2 else 3
  }

  /** A timer far enough away for level k is filed into a slot that is due before it expires, but
      not yet. */
  lemma DueLater(e: u32, now: u32, k: int)
    requires 0 <= k < LEVELS && Span(k) <= Sub(e, now)
    ensures 1 <= Sub(DueAt(e, k), now) <= Sub(e, now)
  {
  }

  /** When a slot is due, its timers are less than its span away. */
  lemma LeftAtDue(e: u32, k: int)
    requires 0 <= k < LEVELS
    ensures Sub(e, DueAt(e, k)) == e % Span(k) < Span(k)
  {
  }

  /** Filed again at that moment, a timer goes to a lower level, and not to its slot 0. */
  lemma RefiledLower(e: u32, k: int, j: int)
    requires 0 <= k < LEVELS && 0 <= j < LEVELS && LevelFor(e % Span(k)) == j
    ensures j < k && Slot(e, j) != 0
  {
    var d := e % Span(k);
    assert d / Span(j) != 0 && d / Span(j) < ROW;
    SubSlot(e, k, j);
  }

  /** Below its own span, an index depends only on the remainder. */
  lemma SubSlot(e: u32, k: int, j: int)
    requires 0 <= j < k < LEVELS
    ensures Slot(e, j) == (e % Span(k)) / Span(j) % ROW
  {
    if j == 0 {
      Shift0(e, k);
    } else if j == 1 {
      Shift1(e, k);
    } else {
      assert e / 0x10_0000 == (e / 0x400_0000) * 64 + (e % 0x400_0000) / 0x10_0000;
    }
  }

  lemma Shift0(e: u32, k: int)
    requires 0 < k < LEVELS
    ensures Slot(e, 0) == (e % Span(k)) / 0x100 % ROW
  {
    var q, d := e / Span(k), e % Span(k);
    if k == 1 {
      assert e / 0x100 == q * 64 + d / 0x100;
    } else if k == 2 {
      assert e / 0x100 == q * 0x1000 + d / 0x100;
    } else {
      assert e / 0x100 == q * 0x4_0000 + d / 0x100;
    }
  }

  lemma Shift1(e: u32, k: int)
    requires 1 < k < LEVELS
    ensures Slot(e, 1) == (e % Span(k)) / 0x4000 % ROW
  {
    if k == 2 {
      assert e / 0x4000 == (e / 0x10_0000) * 64 + (e % 0x10_0000) / 0x4000;
    } else {
      assert e / 0x4000 == (e / 0x400_0000) * 0x1000 + (e % 0x400_0000) / 0x4000;
    }
  }

  /** The slot of level k that a tick to time ct is about: all lower parts of ct are zero. */
  ghost predicate Turns(ct: u32, k: int)
    requires 0 <= k < LEVELS
  {
    ct % Span(k) == 0
  }

  /** A waiting slot whose index the clock has just reached is due now. */
  lemma DueNow(e: u32, ct: u32, k: int)
    requires 0 <= k < LEVELS && Turns(ct, k) && Slot(e, k) == Slot(ct, k)
    requires Sub(DueAt(e, k), ct) < ROW * Span(k)
    ensures DueAt(e, k) == ct
  {
    var m := RoundsApart(e, ct, k);
    var gap := DueAt(e, k) - ct;
    assert -M < gap < M;
    WholeRounds(gap, k, m);
  }

  /** Less than a round apart in 32-bit time, but whole rounds apart: not apart. */
  lemma WholeRounds(gap: int, k: int, m: int)
    requires 0 <= k < LEVELS && gap == (ROW * Span(k)) * m && -M < gap < M
    requires (if gap >= 0 then gap else gap + M) < ROW * Span(k)
    ensures gap == 0
  {
    if k == 0 {
      assert gap == 0x4000 * m;
    } else if k == 1 {
      assert gap == 0x10_0000 * m;
    } else if k == 2 {
      assert gap == 0x400_0000 * m;
    } else {
      assert gap == M * m;
    }
  }

  /** Two moments at which the clock points at the same slot are whole rounds apart. */
  lemma RoundsApart(e: u32, ct: u32, k: int) returns (m: int)
    requires 0 <= k < LEVELS && Turns(ct, k) && Slot(e, k) == Slot(ct, k)
    ensures DueAt(e, k) - ct == (ROW * Span(k)) * m
  {
    var a, b := e / Span(k), ct / Span(k);
    m := a / 64 - b / 64;
    assert a - b == 64 * m;
    assert DueAt(e, k) - ct == (a - b) * Span(k);
    Distribute(64, m, Span(k));
  }

  lemma Distribute(c: int, m: int, s: int)
    ensures c * m * s == c * s * m
  {
  }

  /** Where a level's index turns, all lower indices are zero. */
  lemma LowerZero(ct: u32, k: int, i: int)
    requires 0 <= i < k < LEVELS && Turns(ct, k)
    ensures Turns(ct, i) && Slot(ct, i) == 0
  {
    SubSlot(ct, k, i);
    var q := ct / Span(k);
    var c := if k == i + 1 then 64 else if k == i + 2 then 0x1000 else 0x4_0000;
    assert Span(k) == Span(i) * c;
    MulAssoc(Span(i), c, q);
    ModZero(Span(i), c * q);
  }

  lemma MulAssoc(a: int, b: int, c: int)
    ensures a * b * c == a * (b * c)
  {
  }

  lemma ModZero(s: int, m: int)
    requires s > 0
    ensures (s * m) % s == 0
  {
    var k := m - (s * m) / s;
    assert (s * m) % s == s * k;
    assert k >= 1 ==> s * k >= s;
    assert k <= -1 ==> s * k <= -s;
  }

  lemma TopZero(ct: u32)
    ensures Turns(ct, 3) && Slot(ct, 3) == 0 ==> ct == 0
  {
    assert ct / Span(3) < 64;
  }
}
