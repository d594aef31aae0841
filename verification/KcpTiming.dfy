/** When KCP flushes, how long it waits for an acknowledgement, and how losses change the congestion
    window: what the timing fields of the control block promise. */
module KcpTiming {
  import opened U32
  import opened KcpWire
  import opened KcpModel
  import opened KcpLocal
  import opened KcpFlush

  // ---- losses ----

  /** Sent again early because it was skipped. */
  predicate SentFast(k: Kcp, t: Seg) { t.xmit != 0 && !TimedOut(k, t) && Skipped(k, t) }

  /** How many segments were sent again because their time was over. */
  function Timeouts(k: Kcp, q: seq<Seg>): nat
  {
    if q == [] then 0 else Timeouts(k, q[..|q| - 1]) + (if TimedOut(k, q[|q| - 1]) then 1 else 0)
  }

  ghost predicate AnyTimeout(k: Kcp) { exists t :: t in k.snd_buf && TimedOut(k, t) }

  ghost predicate AnyFast(k: Kcp) { exists t :: t in k.snd_buf && SentFast(k, t) }

  /** A segment goes for at least the dead_link-th time. */
  ghost predicate AnyDead(k: Kcp, q: seq<Seg>)
  {
    exists t :: t in q && Goes(k, t) && Add(t.xmit, 1) >= k.ctl.dead_link
  }

  lemma StepNotes(k: Kcp, w: Sweep, t: Seg)
    ensures var w' := SweepOne(k, w, t);
            && w'.fast == w.fast + (if SentFast(k, t) then 1 else 0)
            && w'.timeouts == w.timeouts + (if TimedOut(k, t) then 1 else 0)
            && w'.dead == (w.dead || (Goes(k, t) && Add(t.xmit, 1) >= k.ctl.dead_link))
  {
  }

  lemma {:induction false} SweepNotes(k: Kcp, buf: seq<Seg>)
    ensures var w := SweepAll(k, buf);
            && (w.fast > 0 <==> exists t :: t in buf && SentFast(k, t))
            && w.timeouts == Timeouts(k, buf)
            && (w.timeouts > 0 <==> exists t :: t in buf && TimedOut(k, t))
            && (w.dead <==> k.ctl.dead || AnyDead(k, buf))
  {
    if buf != [] {
      var n := |buf| - 1;
      SweepNotes(k, buf[..n]);
      StepNotes(k, SweepAll(k, buf[..n]), buf[n]);
      assert buf == buf[..n] + [buf[n]];
    }
  }

  lemma OldOnes(k: Kcp, k1: Kcp, n: nat, i: nat)
    requires Moved(Probed(k), k1, n) && i < |k1.snd_buf| && k1.snd_buf[i].xmit != 0
    ensures i < |k.snd_buf|
  {
  }

  /** Newly numbered segments were never sent: they count for none of these. */
  lemma NewDoNotCount(k: Kcp, k1: Kcp, n: nat)
    requires Moved(Probed(k), k1, n)
    ensures (exists t :: t in k1.snd_buf && SentFast(k1, t)) <==> AnyFast(k)
    ensures (exists t :: t in k1.snd_buf && TimedOut(k1, t)) <==> AnyTimeout(k)
  {
    var b := |k.snd_buf|;
    forall t | t in k1.snd_buf && t.xmit != 0
      ensures t in k.snd_buf
    {
      var i :| 0 <= i < |k1.snd_buf| && k1.snd_buf[i] == t;
      OldOnes(k, k1, n, i);
      assert k1.snd_buf[..b][i] == t;
    }
    forall t | t in k.snd_buf
      ensures t in k1.snd_buf
    {
      assert t in k1.snd_buf[..b];
    }
  }

  lemma {:induction false} TimeoutsSame(k: Kcp, k1: Kcp, q: seq<Seg>, q1: seq<Seg>)
    requires k1.current == k.current && q <= q1 && forall i :: |q| <= i < |q1| ==> q1[i].xmit == 0
    ensures Timeouts(k1, q1) == Timeouts(k, q)
    decreases |q1|
  {
    if |q1| > |q| {
      TimeoutsSame(k, k1, q, q1[..|q1| - 1]);
    } else if q != [] {
      TimeoutsSame(k, k1, q[..|q| - 1], q1[..|q1| - 1]);
    }
  }

  lemma FlushIs(k: Kcp)
    requires k.updated
    ensures var k1 := ReadyToSend(k);
            Flush(k).0.ctl == AfterFlush(k1, EffectiveWnd(k), SweepAll(k1, k1.snd_buf))
            && Flush(k).0.snd_nxt == k1.snd_nxt
  {
  }

  /** Each segment sent again after its time is counted. */
  lemma {:induction false} FlushTimeouts(k: Kcp)
    requires Inv(k) && k.updated
    ensures Counted(k.ctl, Timeouts(k, k.snd_buf), Flush(k).0.ctl)
  {
    var k1 := ReadyToSend(k);
    ReadyExact(k);
    TimeoutsOf(k, k1, NewCount(k));
    FlushIs(k);
    XmitIs(k, k1, EffectiveWnd(k), SweepAll(k1, k1.snd_buf), Timeouts(k, k.snd_buf));
  }

  ghost predicate Counted(c: Ctl, n: nat, c': Ctl) { c'.xmit == Wrap(c.xmit + n) }

  lemma XmitIs(k: Kcp, k1: Kcp, cwnd: u32, w: Sweep, n: nat)
    requires k1.ctl == ProbeTimer(k) && w.timeouts == n
    ensures Counted(k.ctl, n, AfterFlush(k1, cwnd, w))
  {
    SameCounts(k, k1, cwnd, w);
  }

  lemma {:induction false} TimeoutsOf(k: Kcp, k1: Kcp, n: nat)
    requires Moved(Probed(k), k1, n)
    ensures SweepAll(k1, k1.snd_buf).timeouts == Timeouts(k, k.snd_buf)
  {
    SweepNotes(k1, k1.snd_buf);
    TimeoutsCounted(k, k1, n);
  }

  /** The link is dead once a segment goes for the dead_link-th time. */
  lemma FlushDead(k: Kcp)
    requires Inv(k) && k.updated
    ensures Flush(k).0.ctl.dead <==> k.ctl.dead || AnyDead(k, k.snd_buf) || (NewCount(k) > 0 && k.ctl.dead_link <= 1)
  {
    var k1 := ReadyToSend(k);
    ReadyExact(k);
    SweepNotes(k1, k1.snd_buf);
    DeadCounted(k, k1, NewCount(k));
    SameCounts(k, k1, EffectiveWnd(k), SweepAll(k1, k1.snd_buf));
    FlushIs(k);
  }

  lemma SameCounts(k: Kcp, k1: Kcp, cwnd: u32, w: Sweep)
    requires k1.ctl == ProbeTimer(k)
    ensures var c' := AfterFlush(k1, cwnd, w); c'.xmit == Wrap(k.ctl.xmit + w.timeouts) && c'.dead == w.dead
  {
  }

  lemma {:induction false} TimeoutsCounted(k: Kcp, k1: Kcp, n: nat)
    requires Moved(Probed(k), k1, n)
    ensures Timeouts(k1, k1.snd_buf) == Timeouts(k, k.snd_buf)
  {
    assert k1.snd_buf[..|k.snd_buf|] == k.snd_buf;
    TimeoutsSame(k, k1, k.snd_buf, k1.snd_buf);
  }

  lemma DeadCounted(k: Kcp, k1: Kcp, n: nat)
    requires Moved(Probed(k), k1, n)
    ensures AnyDead(k1, k1.snd_buf) <==> AnyDead(k, k.snd_buf) || (n > 0 && k.ctl.dead_link <= 1)
  {
    var b := |k.snd_buf|;
    if t :| t in k.snd_buf && Goes(k, t) && Add(t.xmit, 1) >= k.ctl.dead_link {
      assert t in k1.snd_buf[..b] && Goes(k1, t);
    }
    if n > 0 && k.ctl.dead_link <= 1 {
      assert k1.snd_buf[b] in k1.snd_buf;
    }
    if t :| t in k1.snd_buf && Goes(k1, t) && Add(t.xmit, 1) >= k1.ctl.dead_link {
      var i :| 0 <= i < |k1.snd_buf| && k1.snd_buf[i] == t;
      if i < b { assert k1.snd_buf[..b][i] == t; }
    }
  }

  /** A timeout halves the threshold and closes the congestion window to one segment; a fast
      retransmission sets the threshold to half of what is in flight; otherwise both stay. The window
      is never left closed, and its credit in bytes goes with it. */
  ghost predicate Slowed(timeout: bool, fast: bool, wnd: int, inFlight: int, mss: int, c: Ctl, c': Ctl)
  {
    && c'.ssthresh == (if timeout then Max(wnd / 2, 2) else if fast then Max(inFlight / 2, 2) else c.ssthresh)
    && c'.cwnd == (if timeout then 1 else Max(1, if fast then Add(c'.ssthresh, SkipLimit(c)) else c.cwnd))
    && c'.incr == (if timeout || fast || c.cwnd < 1 then Wrap(c'.cwnd * mss) else c.incr)
  }

  lemma FlushSlows(k: Kcp)
    requires Inv(k) && k.updated
    ensures Slowed(AnyTimeout(k), AnyFast(k), Window(k), Sub(Flush(k).0.snd_nxt, k.snd_una), k.mss, k.ctl,
                   Flush(k).0.ctl)
  {
    var k1 := ReadyToSend(k);
    ReadyExact(k);
    WindowIs(k);
    SweepNotes(k1, k1.snd_buf);
    NewDoNotCount(k, k1, NewCount(k));
    FlushIs(k);
    SlowedBy(k, k1, SweepAll(k1, k1.snd_buf));
  }

  lemma SlowedBy(k: Kcp, k1: Kcp, w: Sweep)
    requires k1.ctl == ProbeTimer(k) && k1.snd_una == k.snd_una
    ensures Slowed(w.timeouts > 0, w.fast > 0, EffectiveWnd(k), Sub(k1.snd_nxt, k.snd_una), k1.mss, k.ctl,
                   AfterFlush(k1, EffectiveWnd(k), w))
  {
    AfterFlushIs(k1, EffectiveWnd(k), w);
  }

  lemma AfterFlushIs(k: Kcp, cwnd: u32, w: Sweep)
    ensures var c, c' := k.ctl, AfterFlush(k, cwnd, w);
            && c'.ssthresh == (if w.timeouts > 0 then Max(cwnd / 2, 2)
                               else if w.fast > 0 then Max(Sub(k.snd_nxt, k.snd_una) / 2, 2) else c.ssthresh)
            && c'.cwnd == (if w.timeouts > 0 then 1
                           else Max(1, if w.fast > 0 then Add(c'.ssthresh, Resent(c)) else c.cwnd))
            && c'.incr == (if w.timeouts > 0 || w.fast > 0 || c.cwnd < 1 then Wrap(c'.cwnd * k.mss) else c.incr)
  {
    if w.timeouts > 0 {
      AfterTimeout(k, cwnd, w);
    } else if w.fast > 0 {
      AfterFast(k, cwnd, w);
    }
  }

  lemma AfterTimeout(k: Kcp, cwnd: u32, w: Sweep)
    requires w.timeouts > 0
    ensures AfterFlush(k, cwnd, w).ssthresh == Max(cwnd / 2, 2) && AfterFlush(k, cwnd, w).cwnd == 1
    ensures AfterFlush(k, cwnd, w).incr == Wrap(k.mss)
  {
  }

  lemma AfterFast(k: Kcp, cwnd: u32, w: Sweep)
    requires w.timeouts == 0 && w.fast > 0
    ensures var c' := AfterFlush(k, cwnd, w);
            c'.ssthresh == Max(Sub(k.snd_nxt, k.snd_una) / 2, 2) && c'.cwnd == Max(1, Add(c'.ssthresh, Resent(k.ctl)))
            && c'.incr == Wrap(c'.cwnd * k.mss)
  {
  }

  // ---- window probes ----

  /** While the peer has no room it is asked again after 7 seconds, and each time after half as long
      again, up to 120 seconds. */
  ghost predicate Probing(k: Kcp, c: Ctl, c': Ctl)
  {
    if k.rmt_wnd != 0 then c'.probe_wait == 0 && c'.ts_probe == 0
    else if c.probe_wait == 0 then c'.probe_wait == 7000 && c'.ts_probe == Add(k.current, 7000)
    else if Diff(k.current, c.ts_probe) < 0 then c'.probe_wait == c.probe_wait && c'.ts_probe == c.ts_probe
    else
      && c'.ts_probe == Add(k.current, c'.probe_wait)
      && (7000 <= c.probe_wait <= 120000 ==> c'.probe_wait == Min(c.probe_wait + c.probe_wait / 2, 120000))
  }

  lemma FlushProbes(k: Kcp)
    requires Inv(k) && k.updated
    ensures Probing(k, k.ctl, Flush(k).0.ctl)
  {
    var k1 := ReadyToSend(k);
    ReadyExact(k);
    assert Probing(k, k.ctl, k1.ctl);
    SameProbes(k1, EffectiveWnd(k), SweepAll(k1, k1.snd_buf));
  }

  lemma SameProbes(k: Kcp, cwnd: u32, w: Sweep)
    ensures var c' := AfterFlush(k, cwnd, w); c'.probe_wait == k.ctl.probe_wait && c'.ts_probe == k.ctl.ts_probe
  {
  }

  // ---- the flush interval ----

  /** The first update flushes; then one flushes once its time is reached, or when the clock jumped
      back by more than ten seconds. */
  predicate FlushDue(k: Kcp, now: u32)
  {
    !k.updated || Diff(now, k.ts_flush) >= 0 || Diff(now, k.ts_flush) < -10000
  }

  lemma UpdateExact(k: Kcp, now: u32)
    ensures var k1 := k.(current := now, updated := true, ts_flush := Update(k, now).0.ts_flush);
            Update(k, now) == if FlushDue(k, now) then Flush(k1) else (k1, [])
    ensures k.updated && !FlushDue(k, now) ==> Update(k, now).0.ts_flush == k.ts_flush
    ensures FlushDue(k, now) && 0 < k.interval < HALF - 10000 ==>
              0 < Diff(Update(k, now).0.ts_flush, now) <= k.interval
  {
    FlushSchedule(k, now);
    FlushKeepsTime(Ticked(k, now));
  }

  lemma FlushKeepsTime(k: Kcp)
    ensures Flush(k).0.ts_flush == k.ts_flush
  {
    AdmitKeepsTime(Probed(k), EffectiveWnd(k));
  }

  lemma {:induction false} AdmitKeepsTime(k: Kcp, cwnd: u32)
    ensures Admit(k, cwnd).ts_flush == k.ts_flush
    decreases |k.snd_queue|
  {
    if Diff(k.snd_nxt, Add(k.snd_una, cwnd)) < 0 && k.snd_queue != [] { AdmitKeepsTime(AdmitOne(k), cwnd); }
  }

  /** The next flush lies ahead, by no more than the interval. */
  lemma FlushSchedule(k: Kcp, now: u32)
    ensures Due(k, now) <==> FlushDue(k, now)
    ensures k.updated && !FlushDue(k, now) ==> Ticked(k, now).ts_flush == k.ts_flush
    ensures FlushDue(k, now) && 0 < k.interval < HALF - 10000 ==> 0 < Diff(Ticked(k, now).ts_flush, now) <= k.interval
  {
  }

  // ---- round-trip time ----

  /** The first sample is taken as it is; later ones are smoothed, one eighth and one quarter at a time.
      The wait is the smoothed time and four deviations, within its bounds. */
  lemma RttExact(c: Ctl, interval: u32, rtt: nat)
    requires 0 <= c.rttval < HALF / 8 && 0 <= c.srtt < HALF / 8 && rtt < HALF / 8 && interval < HALF / 8
    ensures var c' := UpdateAck(c, interval, rtt);
            && (c.srtt == 0 ==> c'.srtt == rtt && c'.rttval == rtt / 2)
            && (c.srtt > 0 ==> Smoothed(c.srtt, rtt, 8, c'.srtt) || (c'.srtt == 1 && 7 * c.srtt + rtt < 8))
            && (c.srtt > 0 ==> Smoothed(c.rttval, Distance(rtt, c.srtt), 4, c'.rttval))
            && c'.rto == Min(60000, Max(c.minrto, c'.srtt + Max(interval, 4 * c'.rttval)))
            && c' == c.(srtt := c'.srtt, rttval := c'.rttval, rto := c'.rto)
  {
    if c.srtt > 0 {
      RttNext(c, interval, rtt);
    }
    RtoExact(c, interval, rtt);
  }

  lemma RttNext(c: Ctl, interval: u32, rtt: nat)
    requires 0 <= c.rttval < HALF / 8 && 0 < c.srtt < HALF / 8 && rtt < HALF / 8
    ensures var c' := UpdateAck(c, interval, rtt);
            && (Smoothed(c.srtt, rtt, 8, c'.srtt) || (c'.srtt == 1 && 7 * c.srtt + rtt < 8))
            && Smoothed(c.rttval, Distance(rtt, c.srtt), 4, c'.rttval)
            && 0 <= c'.srtt < HALF / 8 && 0 <= c'.rttval < HALF / 8
  {
    Divided(7 * c.srtt + rtt, 8);
    Divided(3 * c.rttval + Distance(rtt, c.srtt), 4);
  }

  lemma RtoExact(c: Ctl, interval: u32, rtt: nat)
    requires interval < HALF / 8
    requires var c' := UpdateAck(c, interval, rtt); 0 <= c'.srtt < HALF / 8 && 0 <= c'.rttval < HALF / 8
    ensures var c' := UpdateAck(c, interval, rtt);
            c'.rto == Min(60000, Max(c.minrto, c'.srtt + Max(interval, 4 * c'.rttval)))
  {
    var c' := UpdateAck(c, interval, rtt);
    RtoOf(c.minrto, c'.srtt, interval, c'.rttval);
  }

  lemma RtoOf(minrto: u32, srtt: int, interval: u32, rttval: int)
    requires 0 <= srtt < HALF / 8 && 0 <= rttval < HALF / 8 && interval < HALF / 8
    ensures Wrap(Min(Max(minrto, Wrap(srtt + Max(interval, Wrap(4 * rttval)))), RTO_MAX))
            == Min(60000, Max(minrto, srtt + Max(interval, 4 * rttval)))
  {
    assert Wrap(4 * rttval) == 4 * rttval;
  }

  function Distance(a: int, b: int): int { if a >= b then a - b else b - a }

  lemma Divided(x: nat, n: nat)
    requires n > 0
    ensures n * TruncDiv(x, n) <= x < n * TruncDiv(x, n) + n
  {
  }

  /** x' is x moved by one n-th of the way to the sample, rounded down. */
  ghost predicate Smoothed(x: int, sample: int, n: int, x': int)
  {
    n * x' <= (n - 1) * x + sample < n * x' + n
  }

  // ---- the congestion window ----

  /** Acknowledged data opens the window by one segment below the threshold; it never grows past what
      the peer has room for, and not at all once it is there. */
  lemma GrowBounds(c: Ctl, mss: int, rmt_wnd: u32)
    requires mss > 0
    ensures var c' := Grow(c, mss, rmt_wnd);
            && (c.cwnd >= rmt_wnd ==> c' == c) && (c.cwnd < rmt_wnd ==> c'.cwnd <= rmt_wnd)
            && (c.cwnd < rmt_wnd && c.cwnd < c.ssthresh ==> c'.cwnd == c.cwnd + 1)
            && c' == c.(cwnd := c'.cwnd, incr := c'.incr)
  {
  }
}
