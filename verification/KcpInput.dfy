/** What ikcp_input does with the bytes it is given, said of the state before and after: which
    segments are acknowledged and leave, which are stored and acknowledged in turn. */
module KcpInput {
  import opened U32
  import opened KcpWire
  import opened KcpModel
  import opened KcpLocal

  // ---- one segment ----

  /** una is ahead of sn, counted from the left edge of the send window. */
  ghost predicate Covers(k: Kcp, una: u32, sn: u32)
  {
    Sub(sn, k.snd_una) < Sub(una, k.snd_una) < HALF
  }

  /** The segment tells that the peer has number sn. */
  ghost predicate Acknowledges(k: Kcp, s: Seg, sn: u32)
  {
    Covers(k, s.una, sn) || (s.cmd == CMD_ACK && s.sn == sn)
  }

  /** A pushed segment below the right edge of the receive window: it is acknowledged. */
  ghost predicate Accepted(k: Kcp, s: Seg)
  {
    s.cmd == CMD_PUSH && Diff(s.sn, Add(k.rcv_nxt, k.rcv_wnd)) < 0
  }

  /** A pushed segment within the receive window: it is stored unless it is there. */
  ghost predicate Wanted(k: Kcp, s: Seg)
  {
    s.cmd == CMD_PUSH && Sub(s.sn, k.rcv_nxt) < k.rcv_wnd
  }

  /** All that is held for the application, in order. */
  function Stored(k: Kcp): seq<Seg> { k.rcv_queue + k.rcv_buf }

  /** An acknowledgement whose time stamp is not in the future: it gives a round-trip time. */
  ghost predicate Sample(k: Kcp, s: Seg) { s.cmd == CMD_ACK && Diff(k.current, s.ts) >= 0 }

  /** What one segment s changes, from k to k'. */
  ghost predicate Effect(k: Kcp, s: Seg, k': Kcp)
  {
    && GoodStep(k, k') && k'.rmt_wnd == s.wnd
    && (forall t :: t in k'.snd_buf <==> t in k.snd_buf && !Acknowledges(k, s, t.sn))
    && k'.acklist == k.acklist + (if Accepted(k, s) then [(s.sn, s.ts)] else [])
    && k.rcv_queue <= k'.rcv_queue
    && (forall t :: t in Stored(k') <==> t in Stored(k) || (t == s && Wanted(k, s) && !HasSn(k.rcv_buf, s.sn)))
    && k'.askTell == (k.askTell || s.cmd == CMD_WASK)
    && k'.ctl == (if Sample(k, s) then UpdateAck(k.ctl, k.interval, Diff(k.current, s.ts)) else k.ctl)
    && k'.askSend == k.askSend && k'.updated == k.updated && k'.current == k.current && k'.interval == k.interval
    && k'.ts_flush == k.ts_flush
  }

  /** Exactly that is what one segment does, whatever it says. */
  lemma SegmentExact(k: Kcp, s: Seg)
    requires Inv(k)
    ensures Effect(k, s, ProcessSeg(k, s))
  {
    var k1 := Shrink(ParseUna(k.(rmt_wnd := s.wnd), s.una));
    ProcessSegKeeps(k, s);
    HeaderKeeps(k, s.wnd, s.una);
    HeaderExact(k, s, k1);
    if s.cmd == CMD_ACK {
      AckExact(k1, s.sn);
      AckSame(k1, s);
      AckEffect(k, s, k1, ProcessAck(k1, s));
    } else if s.cmd == CMD_PUSH {
      PushExact(k1, s);
      PushEffect(k, s, k1, ProcessPush(k1, s));
    } else {
      OtherEffect(k, s, k1);
    }
  }

  /** What every segment changes, before its command is looked at. */
  ghost predicate Headed(k: Kcp, s: Seg, k1: Kcp)
  {
    && Inv(k1) && (forall t :: t in k1.snd_buf <==> t in k.snd_buf && !Covers(k, s.una, t.sn))
    && k1 == k.(rmt_wnd := s.wnd, snd_buf := k1.snd_buf, nsnd_buf := k1.nsnd_buf, snd_una := k1.snd_una)
  }

  lemma HeaderExact(k: Kcp, s: Seg, k1: Kcp)
    requires Inv(k) && Inv(k1) && k1 == Shrink(ParseUna(k.(rmt_wnd := s.wnd), s.una))
    ensures Headed(k, s, k1)
  {
    DropExact(k, s.una);
  }

  lemma AckEffect(k: Kcp, s: Seg, k1: Kcp, k': Kcp)
    requires Headed(k, s, k1) && s.cmd == CMD_ACK && GoodStep(k, k')
    requires forall t :: t in k'.snd_buf <==> t in k1.snd_buf && t.sn != s.sn
    requires k' == k1.(snd_buf := k'.snd_buf, nsnd_buf := k'.nsnd_buf, snd_una := k'.snd_una, ctl := k'.ctl)
    requires k'.ctl == if Diff(k1.current, s.ts) < 0 then k1.ctl
                       else UpdateAck(k1.ctl, k1.interval, Diff(k1.current, s.ts))
    ensures Effect(k, s, k')
  {
  }

  lemma PushEffect(k: Kcp, s: Seg, k1: Kcp, k': Kcp)
    requires Headed(k, s, k1) && s.cmd == CMD_PUSH && GoodStep(k, k') && Pushed(k1, s, k')
    ensures Effect(k, s, k')
  {
  }

  lemma OtherEffect(k: Kcp, s: Seg, k1: Kcp)
    requires Headed(k, s, k1) && s.cmd != CMD_ACK && s.cmd != CMD_PUSH
    requires GoodStep(k, if s.cmd == CMD_WASK then k1.(askTell := true) else k1)
    ensures Effect(k, s, if s.cmd == CMD_WASK then k1.(askTell := true) else k1)
  {
  }

  lemma Offsets(una: u32, sn: u32, base: u32)
    requires Sub(sn, base) < HALF
    ensures Sub(una, base) < HALF ==> (Diff(una, sn) > 0 <==> Sub(sn, base) < Sub(una, base))
  {
  }

  lemma {:induction false} DropStops(buf: seq<Seg>, una: u32)
    ensures DropAcked(buf, una) != [] ==> Diff(una, DropAcked(buf, una)[0].sn) <= 0
  {
    if buf != [] && Diff(una, buf[0].sn) > 0 {
      DropStops(buf[1..], una);
    }
  }

  /** Dropping from the front takes out just the segments that una is ahead of. */
  lemma {:induction false} DropExact(k: Kcp, una: u32)
    requires ConfigOk(k) && SendSide(k)
    ensures forall t :: t in DropAcked(k.snd_buf, una) <==> t in k.snd_buf && !Covers(k, una, t.sn)
  {
    var buf, r := k.snd_buf, DropAcked(k.snd_buf, una);
    var n := |buf| - |r|;
    DropIsSuffix(buf, una);
    DropStops(buf, una);
    forall t | t in r
      ensures t in buf && !Covers(k, una, t.sn)
    {
      var j :| 0 <= j < |r| && r[j] == t;
      assert buf[n + j] == t;
      CoveredPrefix(k, una, n, n + j);
    }
    forall t | t in buf && !Covers(k, una, t.sn)
      ensures t in r
    {
      var j :| 0 <= j < |buf| && buf[j] == t;
      CoveredPrefix(k, una, n, j);
      assert r[j - n] == t;
    }
  }

  lemma CoveredPrefix(k: Kcp, una: u32, n: nat, i: nat)
    requires ConfigOk(k) && SendSide(k) && n <= |k.snd_buf| && i < |k.snd_buf|
    requires forall j :: 0 <= j < n ==> Diff(una, k.snd_buf[j].sn) > 0
    requires n < |k.snd_buf| ==> Diff(una, k.snd_buf[n].sn) <= 0
    ensures Covers(k, una, k.snd_buf[i].sn) <==> i < n
  {
    var buf := k.snd_buf;
    Offsets(una, buf[i].sn, k.snd_una);
    Offsets(una, buf[0].sn, k.snd_una);
    if n < |buf| {
      Offsets(una, buf[n].sn, k.snd_una);
      assert n < i ==> Sub(buf[n].sn, k.snd_una) < Sub(buf[i].sn, k.snd_una);
    }
  }

  /** In an ordered buffer the search for an acknowledged number finds it if it is there. */
  lemma {:induction false} FindSnExact(buf: seq<Seg>, sn: u32, base: u32, limit: int)
    requires Ordered(buf, base, limit) && limit <= HALF && Sub(sn, base) < limit
    ensures FindSn(buf, sn) < |buf| <==> HasSn(buf, sn)
  {
    if buf != [] {
      FindSnExact(buf[1..], sn, base, limit);
      if i :| 0 <= i < |buf| && buf[i].sn == sn {
        if i > 0 {
          assert buf[1..][i - 1].sn == sn;
          assert Sub(buf[0].sn, base) < Sub(buf[i].sn, base);
        }
      }
      if FindSn(buf, sn) < |buf| {
        assert buf[FindSn(buf, sn)].sn == sn;
      }
    }
  }

  lemma AckExact(k: Kcp, sn: u32)
    requires ConfigOk(k) && SendSide(k)
    ensures forall t :: t in ParseAck(k, sn).snd_buf <==> t in k.snd_buf && t.sn != sn
  {
    var buf, limit := k.snd_buf, Sub(k.snd_nxt, k.snd_una);
    if AckInRange(k, sn) {
      FindSnExact(buf, sn, k.snd_una, limit);
      if FindSn(buf, sn) < |buf| {
        var i := FindSn(buf, sn);
        forall j | 0 <= j < |buf| && j != i
          ensures buf[j].sn != buf[i].sn
        {
          Distinct(buf, k.snd_una, limit, i, j);
        }
        WithoutIs(buf, i);
      } else {
        NotThere(buf, sn);
      }
    } else {
      assert !HasSn(buf, sn);
      NotThere(buf, sn);
    }
  }

  lemma NotThere(buf: seq<Seg>, sn: u32)
    requires !HasSn(buf, sn)
    ensures forall t :: t in buf ==> t.sn != sn
  {
  }

  lemma AckSame(k: Kcp, s: Seg)
    ensures var k' := ProcessAck(k, s);
            && k'.snd_buf == ParseAck(k, s.sn).snd_buf
            && k' == k.(snd_buf := k'.snd_buf, nsnd_buf := k'.nsnd_buf, snd_una := k'.snd_una, ctl := k'.ctl)
            && k'.ctl == if Diff(k.current, s.ts) < 0 then k.ctl
                         else UpdateAck(k.ctl, k.interval, Diff(k.current, s.ts))
  {
  }

  lemma WithoutIs(buf: seq<Seg>, i: nat)
    requires i < |buf| && forall j :: 0 <= j < |buf| && j != i ==> buf[j].sn != buf[i].sn
    ensures forall t :: t in buf[..i] + buf[i + 1..] <==> t in buf && t.sn != buf[i].sn
  {
    var r := buf[..i] + buf[i + 1..];
    assert forall j :: 0 <= j < |r| ==> r[j] == buf[if j < i then j else j + 1];
    forall t | t in buf && t.sn != buf[i].sn
      ensures t in r
    {
      var j :| 0 <= j < |buf| && buf[j] == t;
      assert r[if j < i then j else j - 1] == t;
    }
  }

  lemma Distinct(buf: seq<Seg>, base: u32, limit: int, i: nat, j: nat)
    requires Ordered(buf, base, limit) && i < |buf| && j < |buf| && i != j
    ensures buf[i].sn != buf[j].sn
  {
    if i < j {
      assert Sub(buf[i].sn, base) < Sub(buf[j].sn, base);
    } else {
      assert Sub(buf[j].sn, base) < Sub(buf[i].sn, base);
    }
  }

  /** Draining the buffer into the queue moves segments; it neither loses nor reorders any. */
  lemma {:induction false} MovesOnly(k: Kcp)
    ensures Stored(MoveReady(k)) == Stored(k) && k.rcv_queue <= MoveReady(k).rcv_queue
    decreases |k.rcv_buf|
  {
    if k.rcv_buf != [] && k.rcv_buf[0].sn == k.rcv_nxt && k.nrcv_que < k.rcv_wnd {
      var k1 := k.(rcv_buf := k.rcv_buf[1..], nrcv_buf := k.nrcv_buf - 1,
                   rcv_queue := k.rcv_queue + [k.rcv_buf[0]], nrcv_que := k.nrcv_que + 1,
                   rcv_nxt := Add(k.rcv_nxt, 1));
      MovesOnly(k1);
      assert k.rcv_buf == [k.rcv_buf[0]] + k.rcv_buf[1..];
    }
  }

  lemma {:induction false} MovesSame(k: Kcp)
    ensures var k' := MoveReady(k);
            k' == k.(rcv_buf := k'.rcv_buf, nrcv_buf := k'.nrcv_buf, rcv_queue := k'.rcv_queue,
                     nrcv_que := k'.nrcv_que, rcv_nxt := k'.rcv_nxt)
    decreases |k.rcv_buf|
  {
    if k.rcv_buf != [] && k.rcv_buf[0].sn == k.rcv_nxt && k.nrcv_que < k.rcv_wnd {
      MovesSame(k.(rcv_buf := k.rcv_buf[1..], nrcv_buf := k.nrcv_buf - 1,
                   rcv_queue := k.rcv_queue + [k.rcv_buf[0]], nrcv_que := k.nrcv_que + 1,
                   rcv_nxt := Add(k.rcv_nxt, 1)));
    }
  }

  /** What pushed data changes. */
  ghost predicate Pushed(k: Kcp, s: Seg, k': Kcp)
  {
    && k'.acklist == k.acklist + (if Accepted(k, s) then [(s.sn, s.ts)] else [])
    && k.rcv_queue <= k'.rcv_queue
    && (forall t :: t in Stored(k') <==> t in Stored(k) || (t == s && Wanted(k, s) && !HasSn(k.rcv_buf, s.sn)))
    && k' == k.(acklist := k'.acklist, rcv_buf := k'.rcv_buf, nrcv_buf := k'.nrcv_buf,
                rcv_queue := k'.rcv_queue, nrcv_que := k'.nrcv_que, rcv_nxt := k'.rcv_nxt)
  }

  lemma PushExact(k: Kcp, s: Seg)
    requires Inv(k) && s.cmd == CMD_PUSH
    ensures Pushed(k, s, ProcessPush(k, s))
  {
    WindowExact(k, s.sn);
    if Wanted(k, s) {
      PlaceForCorrect(k.rcv_buf, s.sn, k.rcv_nxt, k.rcv_wnd);
      PushedNow(k.(acklist := k.acklist + [(s.sn, s.ts)]), s);
    }
  }

  /** Data within the window is stored once, and nothing that is stored gets lost. */
  lemma PushedNow(k: Kcp, s: Seg)
    requires InWindow(k, s.sn) && (PlaceFor(k.rcv_buf, s.sn).Repeat? <==> HasSn(k.rcv_buf, s.sn))
    ensures var k' := ParseData(k, s);
            && k.rcv_queue <= k'.rcv_queue
            && (forall t :: t in Stored(k') <==> t in Stored(k) || (t == s && !HasSn(k.rcv_buf, s.sn)))
            && k' == k.(rcv_buf := k'.rcv_buf, nrcv_buf := k'.nrcv_buf, rcv_queue := k'.rcv_queue,
                        nrcv_que := k'.nrcv_que, rcv_nxt := k'.rcv_nxt)
  {
    match PlaceFor(k.rcv_buf, s.sn)
    case Repeat =>
      MovesOnly(k);
      MovesSame(k);
    case At(i) =>
      var k2 := k.(rcv_buf := k.rcv_buf[..i] + [s] + k.rcv_buf[i..], nrcv_buf := k.nrcv_buf + 1);
      MovesOnly(k2);
      MovesSame(k2);
      OneStored(k.rcv_queue, k.rcv_buf, i, s);
  }

  lemma OneStored(q: seq<Seg>, buf: seq<Seg>, i: nat, s: Seg)
    requires i <= |buf|
    ensures forall t :: t in q + (buf[..i] + [s] + buf[i..]) <==> t in q + buf || t == s
  {
    assert buf == buf[..i] + buf[i..];
  }

  // ---- a whole packet ----

  /** The state when the i-th segment of a packet is looked at. */
  function Before(k: Kcp, segs: seq<Seg>, i: nat): Kcp
    requires i <= |segs|
  {
    ProcessAll(k, segs[..i])
  }

  /** What the segments of a packet, one after another, leave behind. */
  ghost predicate Effects(k: Kcp, segs: seq<Seg>, k': Kcp)
  {
    && Lasts(k, k')
    && k'.rmt_wnd == (if segs == [] then k.rmt_wnd else segs[|segs| - 1].wnd)
    && (k'.askTell <==> k.askTell || exists s :: s in segs && s.cmd == CMD_WASK)
    && forall i :: 0 <= i < |segs| ==> Leaves(Before(k, segs, i), segs[i], k')
  }

  /** No number comes back to the send buffer, nothing stored or to be acknowledged is dropped, and the
      time of the next flush stays. */
  ghost predicate Lasts(k: Kcp, k': Kcp)
  {
    && (forall sn :: HasSn(k'.snd_buf, sn) ==> HasSn(k.snd_buf, sn))
    && (forall t :: t in Stored(k) ==> t in Stored(k'))
    && (forall a :: a in k.acklist ==> a in k'.acklist)
    && k'.updated == k.updated && k'.ts_flush == k.ts_flush
  }

  /** What segment s, looked at in state k, leaves behind in k': what it acknowledges is out of the send
      buffer; if it is pushed data in time it is to be acknowledged, and it is held. */
  ghost predicate Leaves(k: Kcp, s: Seg, k': Kcp)
  {
    && (forall sn :: Acknowledges(k, s, sn) ==> !HasSn(k'.snd_buf, sn))
    && (Accepted(k, s) ==> (s.sn, s.ts) in k'.acklist)
    && (Wanted(k, s) ==> HasSn(Stored(k'), s.sn) && (!HasSn(k.rcv_buf, s.sn) ==> s in Stored(k')))
  }

  lemma LeavesNow(k: Kcp, s: Seg, k': Kcp)
    requires Effect(k, s, k')
    ensures Leaves(k, s, k') && Lasts(k, k')
  {
    forall sn | HasSn(k'.snd_buf, sn)
      ensures HasSn(k.snd_buf, sn) && !Acknowledges(k, s, sn)
    {
      var i :| 0 <= i < |k'.snd_buf| && k'.snd_buf[i].sn == sn;
      assert k'.snd_buf[i] in k'.snd_buf;
      Numbered(k.snd_buf, k'.snd_buf[i]);
    }
    if Wanted(k, s) {
      if HasSn(k.rcv_buf, s.sn) {
        var i :| 0 <= i < |k.rcv_buf| && k.rcv_buf[i].sn == s.sn;
        assert k.rcv_buf[i] in Stored(k);
        Numbered(Stored(k'), k.rcv_buf[i]);
      } else {
        assert s in Stored(k');
        Numbered(Stored(k'), s);
      }
    }
  }

  lemma Numbered(q: seq<Seg>, t: Seg)
    requires t in q
    ensures HasSn(q, t.sn)
  {
  }

  lemma LeavesLater(k: Kcp, s: Seg, k1: Kcp, k': Kcp)
    requires Leaves(k, s, k1) && Lasts(k1, k')
    ensures Leaves(k, s, k')
  {
    if Wanted(k, s) {
      var i :| 0 <= i < |Stored(k1)| && Stored(k1)[i].sn == s.sn;
      assert Stored(k1)[i] in Stored(k1);
      Numbered(Stored(k'), Stored(k1)[i]);
    }
  }

  lemma BeforeStep(k: Kcp, segs: seq<Seg>, i: nat)
    requires 0 < i <= |segs|
    ensures Before(k, segs, i) == Before(ProcessSeg(k, segs[0]), segs[1..], i - 1)
  {
    assert segs[..i][1..] == segs[1..][..i - 1];
  }

  lemma {:induction false} PacketExact(k: Kcp, segs: seq<Seg>)
    requires Inv(k)
    ensures Effects(k, segs, ProcessAll(k, segs)) && Inv(ProcessAll(k, segs))
    decreases |segs|
  {
    if segs == [] {
    } else {
      var k1, rest := ProcessSeg(k, segs[0]), segs[1..];
      var k' := ProcessAll(k1, rest);
      SegmentExact(k, segs[0]);
      LeavesNow(k, segs[0], k1);
      PacketExact(k1, rest);
      FirstLeaves(k, segs, k1, k');
      FirstEffects(k, segs, k1, k');
    }
  }

  lemma FirstEffects(k: Kcp, segs: seq<Seg>, k1: Kcp, k': Kcp)
    requires segs != [] && Effects(k1, segs[1..], k') && Lasts(k, k1)
    requires k1.rmt_wnd == segs[0].wnd && k1.askTell == (k.askTell || segs[0].cmd == CMD_WASK)
    requires forall i :: 0 <= i < |segs| ==> Leaves(Before(k, segs, i), segs[i], k')
    ensures Effects(k, segs, k')
  {
    FirstTells(segs);
  }

  lemma FirstLeaves(k: Kcp, segs: seq<Seg>, k1: Kcp, k': Kcp)
    requires segs != [] && k1 == ProcessSeg(k, segs[0]) && Leaves(k, segs[0], k1) && Effects(k1, segs[1..], k')
    ensures forall i :: 0 <= i < |segs| ==> Leaves(Before(k, segs, i), segs[i], k')
  {
    LeavesLater(k, segs[0], k1, k');
    forall i | 0 <= i < |segs|
      ensures Leaves(Before(k, segs, i), segs[i], k')
    {
      if i > 0 {
        BeforeStep(k, segs, i);
        assert segs[i] == segs[1..][i - 1];
      } else {
        assert segs[..0] == [];
      }
    }
  }

  lemma FirstTells(segs: seq<Seg>)
    requires segs != []
    ensures forall s :: s in segs <==> s == segs[0] || s in segs[1..]
  {
    assert segs == [segs[0]] + segs[1..];
  }

  /** Counting skips and growing the congestion window leave all of that as it is. */
  lemma AfterSame(k: Kcp, acks: Acks, una: u32)
    requires Inv(k)
    ensures var k' := AfterInput(k, acks, una);
            && k' == k.(snd_buf := k'.snd_buf, ctl := k'.ctl)
            && forall sn :: HasSn(k'.snd_buf, sn) <==> HasSn(k.snd_buf, sn)
  {
    AfterShape(k, acks, una);
    if acks.Seen? {
      BumpShape(k.snd_buf, acks.maxack);
      var buf, r := k.snd_buf, BumpSkipped(k.snd_buf, acks.maxack);
      forall sn
        ensures HasSn(r, sn) <==> HasSn(buf, sn)
      {
        assert forall i :: 0 <= i < |buf| ==> r[i].sn == buf[i].sn;
      }
    }
  }

  lemma {:induction false} AfterShape(k: Kcp, acks: Acks, una: u32)
    requires k.mss > 0
    ensures var k' := AfterInput(k, acks, una);
            k' == k.(snd_buf := (if acks.Seen? then ParseFastack(k, acks.maxack) else k).snd_buf, ctl := k'.ctl)
  {
  }

  lemma EffectsAfter(k: Kcp, segs: seq<Seg>, k1: Kcp, k': Kcp)
    requires Effects(k, segs, k1) && k' == k1.(snd_buf := k'.snd_buf, ctl := k'.ctl)
    requires forall sn :: HasSn(k'.snd_buf, sn) <==> HasSn(k1.snd_buf, sn)
    ensures Effects(k, segs, k')
  {
    forall i | 0 <= i < |segs|
      ensures Leaves(Before(k, segs, i), segs[i], k')
    {
      assert Leaves(Before(k, segs, i), segs[i], k1);
    }
  }

  /** A packet does exactly that, and tells by its return value how it decodes; a size that is no
      header's once it is cut to an int is refused. */
  lemma {:induction false} InputExact(k: Kcp, b: seq<byte>)
    requires Inv(k)
    ensures Signed(|b|) < OVERHEAD ==> Input(k, b) == (k, -1)
    ensures Signed(|b|) >= OVERHEAD ==>
              var d := Decode(b, k.conv); Input(k, b).1 == d.err && Effects(k, d.segs, Input(k, b).0)
  {
    if Signed(|b|) >= OVERHEAD {
      var d := Decode(b, k.conv);
      var k1 := ProcessAll(k, d.segs);
      PacketExact(k, d.segs);
      if d.err == 0 {
        ProcessAllKeeps(k, d.segs);
        AfterSame(k1, NoteAll(NoAck, d.segs), k.snd_una);
        EffectsAfter(k, d.segs, k1, Input(k, b).0);
      }
    }
  }

  // ---- fast retransmission ----

  /** The segments before the greatest acknowledged number count one skip more, and no others. */
  lemma {:induction false} SkipsExact(buf: seq<Seg>, sn: u32, base: u32, limit: int)
    requires Ordered(buf, base, limit) && limit <= HALF && Sub(sn, base) < limit
    ensures |BumpSkipped(buf, sn)| == |buf|
    ensures forall i :: 0 <= i < |buf| ==>
              BumpSkipped(buf, sn)[i] == if Sub(buf[i].sn, base) < Sub(sn, base)
                                         then buf[i].(fastack := Add(buf[i].fastack, 1)) else buf[i]
  {
    if buf != [] {
      SkipsExact(buf[1..], sn, base, limit);
      if Diff(sn, buf[0].sn) < 0 {
        assert forall i :: 0 < i < |buf| ==> Sub(buf[0].sn, base) < Sub(buf[i].sn, base);
      } else {
        assert forall i :: 0 < i < |buf| ==> buf[i] == buf[1..][i - 1];
      }
    }
  }

  /** The number skips are counted by is the greatest acknowledged one of the packet. */
  lemma {:induction false} GreatestAck(a: Acks, segs: seq<Seg>, base: u32)
    requires forall s :: s in segs && s.cmd == CMD_ACK ==> Sub(s.sn, base) < HALF
    requires a.Seen? ==> Sub(a.maxack, base) < HALF
    ensures var r := NoteAll(a, segs);
            && (r.NoAck? <==> a.NoAck? && forall s :: s in segs ==> s.cmd != CMD_ACK)
            && (r.Seen? ==> (r == a || exists s :: s in segs && s.cmd == CMD_ACK && s.sn == r.maxack)
                            && (a.Seen? ==> Sub(a.maxack, base) <= Sub(r.maxack, base) < HALF)
                            && forall s :: s in segs && s.cmd == CMD_ACK ==> Sub(s.sn, base) <= Sub(r.maxack, base))
    decreases |segs|
  {
    if segs != [] {
      var a1 := if segs[0].cmd == CMD_ACK then NoteAck(a, segs[0].sn) else a;
      assert segs[0] in segs;
      GreatestAck(a1, segs[1..], base);
      assert forall s :: s in segs <==> s == segs[0] || s in segs[1..];
    }
  }

  /** The packet acknowledges a number sent after sn. */
  ghost predicate AckedBeyond(segs: seq<Seg>, base: u32, sn: u32)
  {
    exists s :: s in segs && s.cmd == CMD_ACK && Sub(sn, base) < Sub(s.sn, base)
  }

  /** Acknowledgements of numbers between the edges of the send window. */
  ghost predicate AcksSent(k: Kcp, segs: seq<Seg>)
  {
    forall s :: s in segs && s.cmd == CMD_ACK ==> Sub(s.sn, k.snd_una) < Sub(k.snd_nxt, k.snd_una)
  }

  ghost predicate SkippedOnce(segs: seq<Seg>, base: u32, t: Seg, t': Seg)
  {
    t' == if AckedBeyond(segs, base, t.sn) then t.(fastack := Add(t.fastack, 1)) else t
  }

  /** Of what stays in the send buffer each segment counts one skip more if and only if the packet acknowledges a
      later number; nothing else of it changes. */
  lemma {:induction false} InputSkips(k: Kcp, b: seq<byte>, t': Seg)
    requires Inv(k) && Signed(|b|) >= OVERHEAD && Decode(b, k.conv).err == 0 && AcksSent(k, Decode(b, k.conv).segs)
    requires t' in Input(k, b).0.snd_buf
    ensures exists t :: t in k.snd_buf && SkippedOnce(Decode(b, k.conv).segs, k.snd_una, t, t')
  {
    var segs := Decode(b, k.conv).segs;
    var k1 := ProcessAll(k, segs);
    ProcessAllKeeps(k, segs);
    GreatestAck(NoAck, segs, k.snd_una);
    assert Input(k, b).0.snd_buf == (if NoteAll(NoAck, segs).Seen? then ParseFastack(k1, NoteAll(NoAck, segs).maxack)
                                     else k1).snd_buf;
    var t := SkipsOf(k, k1, segs, NoteAll(NoAck, segs), t');
    OnlyFewer(k, segs, t);
  }

  lemma {:induction false} SkipsOf(k: Kcp, k1: Kcp, segs: seq<Seg>, acks: Acks, t': Seg) returns (t: Seg)
    requires Inv(k) && GoodStep(k, k1) && AcksSent(k, segs)
    requires acks.NoAck? <==> forall s :: s in segs ==> s.cmd != CMD_ACK
    requires acks.Seen? ==> (exists s :: s in segs && s.cmd == CMD_ACK && s.sn == acks.maxack)
                            && forall s :: s in segs && s.cmd == CMD_ACK
                                 ==> Sub(s.sn, k.snd_una) <= Sub(acks.maxack, k.snd_una)
    requires t' in (if acks.Seen? then ParseFastack(k1, acks.maxack) else k1).snd_buf
    ensures t in k1.snd_buf && SkippedOnce(segs, k.snd_una, t, t')
  {
    t := t';
    if acks.Seen? {
      BeyondGreatest(k, segs, acks.maxack);
      MaxInRange(k, k1, acks.maxack);
      if AckInRange(k1, acks.maxack) {
        SkipsExact(k1.snd_buf, acks.maxack, k1.snd_una, Sub(k1.snd_nxt, k1.snd_una));
        var r := BumpSkipped(k1.snd_buf, acks.maxack);
        var i :| 0 <= i < |r| && r[i] == t';
        t := k1.snd_buf[i];
      }
      assert t in k1.snd_buf;
      Rebased(k, k1, t, acks.maxack);
    }
  }

  lemma {:induction false} BeyondGreatest(k: Kcp, segs: seq<Seg>, m: u32)
    requires exists s :: s in segs && s.cmd == CMD_ACK && s.sn == m
    requires forall s :: s in segs && s.cmd == CMD_ACK ==> Sub(s.sn, k.snd_una) <= Sub(m, k.snd_una)
    ensures forall sn :: AckedBeyond(segs, k.snd_una, sn) <==> Sub(sn, k.snd_una) < Sub(m, k.snd_una)
  {
    var s :| s in segs && s.cmd == CMD_ACK && s.sn == m;
  }

  lemma {:induction false} MaxInRange(k: Kcp, k1: Kcp, m: u32)
    requires Inv(k) && GoodStep(k, k1) && Sub(m, k.snd_una) < Sub(k.snd_nxt, k.snd_una)
    ensures AckInRange(k1, m) <==> Sub(k1.snd_una, k.snd_una) <= Sub(m, k.snd_una)
    ensures AckInRange(k1, m) ==> Sub(m, k1.snd_una) < Sub(k1.snd_nxt, k1.snd_una)
  {
  }

  /** Offsets from the old and from the new left edge compare alike. */
  lemma {:induction false} Rebased(k: Kcp, k1: Kcp, t: Seg, m: u32)
    requires Inv(k) && GoodStep(k, k1) && t in k1.snd_buf && Sub(m, k.snd_una) < Sub(k.snd_nxt, k.snd_una)
    ensures Sub(t.sn, k.snd_una) < Sub(m, k.snd_una) <==>
            AckInRange(k1, m) && Sub(t.sn, k1.snd_una) < Sub(m, k1.snd_una)
  {
    MaxInRange(k, k1, m);
    var i :| 0 <= i < |k1.snd_buf| && k1.snd_buf[i] == t;
    assert Sub(k1.snd_buf[i].sn, k1.snd_una) < Sub(k1.snd_nxt, k1.snd_una);
  }

  /** The segments of a packet add nothing to the send buffer. */
  lemma {:induction false} OnlyFewer(k: Kcp, segs: seq<Seg>, t: Seg)
    requires Inv(k) && t in ProcessAll(k, segs).snd_buf
    ensures t in k.snd_buf
    decreases |segs|
  {
    if segs != [] {
      SegmentExact(k, segs[0]);
      OnlyFewer(ProcessSeg(k, segs[0]), segs[1..], t);
    }
  }

  // ---- the congestion window ----

  /** Below the peer's room, acknowledged data opens the window c to c'. Under the threshold it grows by a
      segment; above it, credit is collected, a segment's bytes divided by the credit in segments and a sixteenth
      segment at a time, and the window becomes the segments that cover the credit once that pays for one more. */
  ghost predicate Opened(c: Ctl, mss: int, rmt_wnd: u32, c': Ctl)
    requires mss > 0
  {
    var credit := Max(c.incr, mss);
    && c' == c.(cwnd := c'.cwnd, incr := c'.incr)
    && if c.cwnd >= rmt_wnd then c' == c
       else if c.cwnd < c.ssthresh then c'.cwnd == c.cwnd + 1 && c'.incr == c.incr + mss
       else Credited(c.cwnd, mss, rmt_wnd, credit + mss * mss / credit + mss / 16, c')
  }

  ghost predicate Credited(cwnd: int, mss: int, rmt_wnd: u32, earned: int, c': Ctl)
  {
    if earned < (cwnd + 1) * mss then c'.cwnd == cwnd && c'.incr == earned
    else
      exists n :: PaysFor(earned, n, mss) && c'.cwnd == Min(n, rmt_wnd)
                  && c'.incr == if n > rmt_wnd then rmt_wnd * mss else earned
  }

  /** n segments are the fewest that cover the credit. */
  ghost predicate PaysFor(earned: int, n: int, mss: int) { (n - 1) * mss < earned <= n * mss }

  lemma {:induction false} GrowExact(c: Ctl, mss: int, rmt_wnd: u32)
    requires 0 < mss < 0x1_0000 && c.incr < HALF && (c.cwnd + 1) * mss < M && rmt_wnd * mss < M
    ensures Opened(c, mss, rmt_wnd, Grow(c, mss, rmt_wnd))
  {
    if c.cwnd < rmt_wnd && c.cwnd >= c.ssthresh {
      EarnedExact(c.incr, mss);
      var earned := Earned(c.incr, mss);
      Covering(earned, mss, (earned + mss - 1) / mss);
      GrowAbove(c, mss, rmt_wnd, (earned + mss - 1) / mss);
    }
  }

  lemma {:induction false} EarnedExact(incr: u32, mss: int)
    requires 0 < mss < 0x1_0000 && incr < HALF
    ensures var credit := Max(incr, mss);
            Earned(incr, mss) == credit + mss * mss / credit + mss / 16 && mss <= Earned(incr, mss) < M - mss
  {
    var credit := Max(incr, mss);
    SquareFits(mss, credit);
    assert Wrap(mss * mss) == mss * mss && Wrap(mss) == mss;
  }

  lemma {:induction false} SquareFits(mss: int, credit: int)
    requires 0 < mss < 0x1_0000 && credit >= mss
    ensures 0 <= mss * mss < M && 0 <= mss * mss / credit <= mss
  {
    assert mss * mss <= mss * 0xffff;
    assert mss * mss <= mss * credit;
    var q := mss * mss / credit;
    assert credit * q <= mss * mss;
    assert q > mss ==> credit * q > credit * mss;
  }

  lemma {:induction false} Covering(earned: int, mss: int, n: int)
    requires mss > 0 && earned > 0 && n == (earned + mss - 1) / mss
    ensures 0 < n <= earned && PaysFor(earned, n, mss)
  {
    Quotient(earned + mss - 1, mss);
    OneLess(n, mss);
    if n > 1 { AtLeast(n - 1, mss); }
  }

  lemma {:induction false} Quotient(x: nat, d: int)
    requires 0 < d <= x
    ensures x / d >= 1 && x / d * d <= x < x / d * d + d
  {
    assert x == x / d * d + x % d;
  }

  lemma {:induction false} OneLess(n: int, d: int)
    ensures (n - 1) * d == n * d - d
  {
  }

  lemma {:induction false} AtLeast(n: int, d: int)
    requires n > 0 && d > 0
    ensures n * d >= n
  {
  }

  lemma {:induction false} GrowAbove(c: Ctl, mss: int, rmt_wnd: u32, n: nat)
    requires mss > 0 && c.ssthresh <= c.cwnd < rmt_wnd && (c.cwnd + 1) * mss < M && rmt_wnd * mss < M
    requires var e := Earned(c.incr, mss);
             0 < e < M - mss && n == (e + mss - 1) / mss < M && PaysFor(e, n, mss)
    ensures var c' := Grow(c, mss, rmt_wnd);
            Credited(c.cwnd, mss, rmt_wnd, Earned(c.incr, mss), c') && c' == c.(cwnd := c'.cwnd, incr := c'.incr)
  {
    var next, top, e := (c.cwnd + 1) * mss, rmt_wnd * mss, Earned(c.incr, mss);
    Positive(c.cwnd + 1, mss);
    Positive(rmt_wnd, mss);
    GrowTo(c, mss, rmt_wnd, e, n, next, top);
  }

  lemma {:induction false} Positive(a: int, b: int)
    requires a > 0 && b > 0
    ensures a * b > 0
  {
  }

  lemma {:induction false} GrowTo(c: Ctl, mss: int, rmt_wnd: u32, e: u32, n: nat, next: int, top: int)
    requires mss > 0 && c.ssthresh <= c.cwnd < rmt_wnd && 0 < next < M && 0 < top < M && e < M - mss
    requires e == Earned(c.incr, mss) && next == (c.cwnd + 1) * mss && top == rmt_wnd * mss
    requires n == (e + mss - 1) / mss < M
    ensures Grow(c, mss, rmt_wnd) == if next > e then c.(incr := e)
                                     else if n > rmt_wnd then c.(cwnd := rmt_wnd, incr := top)
                                     else c.(cwnd := n, incr := e)
  {
    NoWrap(next);
    NoWrap(top);
    NoWrap(e + mss - 1);
    NoWrap(n);
  }

  lemma {:induction false} NoWrap(x: int)
    requires 0 <= x < M
    ensures Wrap(x) == x
  {
  }

  /** The window opens once a packet that decodes has moved the left edge of what is sent, and then only. */
  lemma {:induction false} InputGrows(k: Kcp, b: seq<byte>)
    requires Inv(k) && Signed(|b|) >= OVERHEAD
    ensures var d := Decode(b, k.conv); var k1 := Before(k, d.segs, |d.segs|); var k' := Input(k, b).0;
            && k'.snd_una == k1.snd_una
            && (d.err != 0 || k'.snd_una == k.snd_una ==> k'.ctl == k1.ctl)
            && (d.err == 0 && k'.snd_una != k.snd_una && GrowthFits(k1) ==>
                  Opened(k1.ctl, k1.mss, k1.rmt_wnd, k'.ctl))
  {
    var d := Decode(b, k.conv);
    var k1 := ProcessAll(k, d.segs);
    assert d.segs[..|d.segs|] == d.segs;
    ProcessAllKeeps(k, d.segs);
    Moves(k, k1);
    if GrowthFits(k1) { GrowExact(k1.ctl, k1.mss, k1.rmt_wnd); }
    if d.err == 0 { AfterGrows(k1, NoteAll(NoAck, d.segs), k.snd_una); }
  }

  /** No product with the segment size runs over 32 bits. */
  ghost predicate GrowthFits(k: Kcp)
  {
    0 < k.mss < 0x1_0000 && k.ctl.incr < HALF && (k.ctl.cwnd + 1) * k.mss < M && k.rmt_wnd * k.mss < M
  }

  lemma {:induction false} AfterGrows(k: Kcp, acks: Acks, una: u32)
    requires k.mss > 0
    ensures var k' := AfterInput(k, acks, una);
            k'.snd_una == k.snd_una
            && k'.ctl == if Diff(k.snd_una, una) > 0 then Grow(k.ctl, k.mss, k.rmt_wnd) else k.ctl
  {
  }

  lemma {:induction false} Moves(k: Kcp, k1: Kcp)
    requires Inv(k) && GoodStep(k, k1)
    ensures Diff(k1.snd_una, k.snd_una) > 0 <==> k1.snd_una != k.snd_una
  {
  }
}
