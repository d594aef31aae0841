/** Progress between two endpoints while the network loses nothing: what is sent is acknowledged, and
    every message accepted by one side reaches the application of the other. */
module KcpProgress {
  import opened U32
  import opened KcpWire
  import opened KcpModel
  import opened KcpLocal
  import opened KcpSystem
  import opened KcpInput
  import opened KcpReceive
  import opened KcpFlush
  import opened KcpTiming

  // ---- delivering every packet in order ----

  function DeliverAll(x: Half, ps: seq<seq<byte>>): Half
    decreases |ps|
  {
    if ps == [] || x.k.mss <= 0 then x else DeliverAll(x.(k := Input(x.k, ps[0]).0), ps[1..])
  }

  ghost predicate AllSentBy(y: Half, ps: seq<seq<byte>>)
  {
    forall p :: p in ps ==> p in y.net && |p| < HALF
  }

  /** Delivering changes only the endpoint, and keeps its configuration and its queue. */
  ghost predicate OnlyEndpoint(x: Half, x': Half)
  {
    && x' == x.(k := x'.k) && SameConfig(x.k, x'.k) && x'.k.snd_queue == x.k.snd_queue
    && x'.k.snd_nxt == x.k.snd_nxt
  }

  lemma DeliverOne(x: Half, y: Half, p: seq<byte>)
    requires SysInv(x, y) && p in y.net && |p| < HALF
    ensures var x' := x.(k := Input(x.k, p).0);
            SysInv(x', y) && OnlyEndpoint(x, x') && x'.k.mss > 0
  {
    DeliverStep(x, y, p);
    InputKeeps(x.k, p);
  }

  lemma {:induction false} DeliverAllKeeps(x: Half, y: Half, ps: seq<seq<byte>>)
    requires SysInv(x, y) && AllSentBy(y, ps)
    ensures SysInv(DeliverAll(x, ps), y) && OnlyEndpoint(x, DeliverAll(x, ps))
    decreases |ps|
  {
    if ps != [] {
      DeliverOne(x, y, ps[0]);
      DeliverAllKeeps(x.(k := Input(x.k, ps[0]).0), y, ps[1..]);
    }
  }

  /** What a packet leaves, whatever its size below 2^31. */
  lemma {:induction false} InputLeaves(k: Kcp, p: seq<byte>)
    requires Inv(k) && |p| < HALF
    ensures Effects(k, Decode(p, k.conv).segs, Input(k, p).0)
  {
    InputExact(k, p);
    if |p| < OVERHEAD {
      assert Decode(p, k.conv).segs == [];
    }
  }

  lemma {:induction false} DeliverLasts(x: Half, y: Half, ps: seq<seq<byte>>)
    requires SysInv(x, y) && AllSentBy(y, ps)
    ensures Lasts(x.k, DeliverAll(x, ps).k)
    decreases |ps|
  {
    if ps != [] {
      DeliverOne(x, y, ps[0]);
      InputLeaves(x.k, ps[0]);
      DeliverLasts(x.(k := Input(x.k, ps[0]).0), y, ps[1..]);
    }
  }

  // ---- acknowledgements arrive ----

  /** A number acknowledged by one of the packets is out of the send buffer. */
  lemma {:induction false} AckArrives(x: Half, y: Half, ps: seq<seq<byte>>, sn: u32)
    requires SysInv(x, y) && AllSentBy(y, ps) && Carries(DecodePackets(ps, x.k.conv), CMD_ACK, sn)
    ensures !HasSn(DeliverAll(x, ps).k.snd_buf, sn)
    decreases |ps|
  {
    var x1 := x.(k := Input(x.k, ps[0]).0);
    var segs := Decode(ps[0], x.k.conv).segs;
    DeliverOne(x, y, ps[0]);
    InputLeaves(x.k, ps[0]);
    if Carries(segs, CMD_ACK, sn) {
      AckLeaves(x.k, segs, x1.k, sn);
      DeliverLasts(x1, y, ps[1..]);
    } else {
      CarriesRest(ps, x.k.conv, CMD_ACK, sn);
      AckArrives(x1, y, ps[1..], sn);
    }
  }

  lemma {:induction false} CarriesRest(ps: seq<seq<byte>>, conv: u32, cmd: u32, sn: u32)
    requires ps != [] && Carries(DecodePackets(ps, conv), cmd, sn) && !Carries(Decode(ps[0], conv).segs, cmd, sn)
    ensures Carries(DecodePackets(ps[1..], conv), cmd, sn)
  {
  }

  lemma CarriedAt(segs: seq<Seg>, cmd: u32, sn: u32) returns (i: nat)
    requires Carries(segs, cmd, sn)
    ensures i < |segs| && segs[i].cmd == cmd && segs[i].sn == sn
  {
    var s :| s in segs && s.cmd == cmd && s.sn == sn;
    i :| 0 <= i < |segs| && segs[i] == s;
  }

  lemma AckLeaves(k: Kcp, segs: seq<Seg>, k': Kcp, sn: u32)
    requires Effects(k, segs, k') && Carries(segs, CMD_ACK, sn)
    ensures !HasSn(k'.snd_buf, sn)
  {
    var i := CarriedAt(segs, CMD_ACK, sn);
    assert Leaves(Before(k, segs, i), segs[i], k');
    assert Acknowledges(Before(k, segs, i), segs[i], sn);
  }

  // ---- pushed data arrives ----

  ghost predicate Owed(k: Kcp, sn: u32) { exists a :: a in k.acklist && a.0 == sn }

  /** A number below the receiver's window edge and not half the circle behind it. */
  ghost predicate InReach(k: Kcp, top: int, sn: u32)
  {
    sn < k.rcv_nxt + k.rcv_wnd && top + k.rcv_wnd - sn <= HALF
  }

  /** A number pushed by one of the packets is to be acknowledged. */
  lemma {:induction false} PushArrives(y: Half, x: Half, ps: seq<seq<byte>>, sn: u32)
    requires SysInv(y, x) && AllSentBy(x, ps) && Carries(DecodePackets(ps, y.k.conv), CMD_PUSH, sn)
    requires InReach(y.k, |x.log|, sn)
    ensures Owed(DeliverAll(y, ps).k, sn)
    decreases |ps|
  {
    var y1 := y.(k := Input(y.k, ps[0]).0);
    var segs := Decode(ps[0], y.k.conv).segs;
    DeliverOne(y, x, ps[0]);
    InputLeaves(y.k, ps[0]);
    if Carries(segs, CMD_PUSH, sn) {
      PushLeaves(y, x, ps[0], sn);
      DeliverLasts(y1, x, ps[1..]);
      OwedLasts(y1.k, DeliverAll(y, ps).k, sn);
    } else {
      CarriesRest(ps, y.k.conv, CMD_PUSH, sn);
      InputTook(y.k, ps[0], x, y.log);
      PushArrives(y1, x, ps[1..], sn);
    }
  }

  lemma OwedLasts(k: Kcp, k': Kcp, sn: u32)
    requires Owed(k, sn) && Lasts(k, k')
    ensures Owed(k', sn)
  {
    var a :| a in k.acklist && a.0 == sn;
    assert a in k'.acklist;
  }

  lemma {:induction false} PushLeaves(y: Half, x: Half, p: seq<byte>, sn: u32)
    requires SysInv(y, x) && p in x.net && |p| < HALF && InReach(y.k, |x.log|, sn)
    requires Carries(Decode(p, y.k.conv).segs, CMD_PUSH, sn)
    ensures Owed(Input(y.k, p).0, sn)
  {
    var segs := Decode(p, y.k.conv).segs;
    var i := CarriedAt(segs, CMD_PUSH, sn);
    var k1 := Before(y.k, segs, i);
    InputLeaves(y.k, p);
    BeforeReaches(y, x, p, i);
    assert Leaves(k1, segs[i], Input(y.k, p).0);
    StillInReach(y.k, k1, |x.log|, sn);
  }

  lemma {:induction false} BeforeReaches(y: Half, x: Half, p: seq<byte>, i: nat)
    requires SysInv(y, x) && p in x.net && i <= |Decode(p, y.k.conv).segs|
    ensures var k1 := Before(y.k, Decode(p, y.k.conv).segs, i);
            y.k.rcv_nxt <= k1.rcv_nxt <= |x.log| < HALF && k1.rcv_wnd == y.k.rcv_wnd < HALF
  {
    var segs := Decode(p, y.k.conv).segs[..i];
    assert HonestPacket(p, x.k, x.log);
    assert forall s :: s in segs ==> s in Decode(p, y.k.conv).segs;
    ProcessAllAbsorbs(y.k, segs, x, y.log);
    ProcessAllKeeps(y.k, segs);
  }

  lemma StillInReach(k: Kcp, k1: Kcp, top: int, sn: u32)
    requires InReach(k, top, sn) && k.rcv_nxt <= k1.rcv_nxt <= top < HALF && k1.rcv_wnd == k.rcv_wnd < HALF
    ensures Diff(sn, Add(k1.rcv_nxt, k1.rcv_wnd)) < 0
  {
  }

  // ---- the application takes what is whole ----

  lemma TakeShrinks(x: Half)
    ensures PeekSize(x.k) >= 0 ==>
              var x' := KcpSystem.DoRecv(x, PeekSize(x.k));
              |x'.k.rcv_queue| + |x'.k.rcv_buf| < |x.k.rcv_queue| + |x.k.rcv_buf|
  {
    if PeekSize(x.k) >= 0 {
      var k1 := Unlinked(x.k, PeekSize(x.k));
      MovesOnly(k1);
      assert |Stored(MoveReady(k1))| == |Stored(k1)|;
    }
  }

  /** ikcp_recv with as much room as ikcp_peeksize asks for, until it answers -1. */
  function TakeAll(x: Half): Half
    decreases |x.k.rcv_queue| + |x.k.rcv_buf|
  {
    TakeShrinks(x);
    if PeekSize(x.k) >= 0 then TakeAll(KcpSystem.DoRecv(x, PeekSize(x.k))) else x
  }

  lemma {:induction false} TakeAllKeeps(x: Half, y: Half)
    requires SysInv(x, y)
    ensures var x' := TakeAll(x);
            && SysInv(x', y) && PeekSize(x'.k) < 0 && x' == x.(k := x'.k, rcvd := x'.rcvd)
            && SameConfig(x.k, x'.k) && x'.k.snd_queue == x.k.snd_queue
    decreases |x.k.rcv_queue| + |x.k.rcv_buf|
  {
    TakeShrinks(x);
    if PeekSize(x.k) >= 0 {
      RecvStep(x, y, PeekSize(x.k));
      RecvStepKeeps(x, y, PeekSize(x.k));
      TakeAllKeeps(KcpSystem.DoRecv(x, PeekSize(x.k)), y);
    }
  }

  /** With no whole message left the queue holds fewer segments than any message may have. */
  lemma FewLeft(x: Half, y: Half)
    requires SysInv(x, y) && !y.k.stream && PeekSize(x.k) < 0
    ensures |x.k.rcv_queue| < WND_RCV
  {
    PeekExact(x, y);
    if x.k.rcv_queue != [] {
      NextMessageQueued(x, y);
      FragmentsCount(y.sent[|x.rcvd|], y.k.mss, false);
    }
  }

  /** A receiver whose queue has room holds, in the queue or delivered, all that was acknowledged. */
  lemma CaughtUp(x: Half, y: Half)
    requires SysInv(x, y) && |y.k.rcv_queue| < y.k.rcv_wnd
    ensures x.k.snd_una <= y.k.rcv_nxt <= |x.log| && x.k.snd_una <= |x.log|
  {
    var nxt := y.k.rcv_nxt;
    UnaBelow(x);
    if nxt < x.k.snd_una {
      assert !InBuf(x.k.snd_buf, nxt) by { NotBefore(x, nxt); }
      assert InBuf(y.k.rcv_buf, nxt);
      FirstInBuffer(y.k);
    }
  }

  lemma UnaBelow(x: Half)
    requires Inv(x.k) && SendOk(x.k, x.log)
    ensures x.k.snd_una <= |x.log|
  {
    if x.k.snd_buf != [] { assert x.k.snd_buf[0] in x.k.snd_buf; }
  }

  lemma NotBefore(x: Half, sn: int)
    requires Inv(x.k) && SendOk(x.k, x.log) && sn < x.k.snd_una
    ensures !InBuf(x.k.snd_buf, sn)
  {
    forall i | 0 <= i < |x.k.snd_buf|
      ensures x.k.snd_buf[i].sn >= x.k.snd_una
    {
      assert x.k.snd_buf[i] in x.k.snd_buf;
      UnaBelow(x);
    }
  }

  lemma FirstInBuffer(k: Kcp)
    requires Inv(k) && InBuf(k.rcv_buf, k.rcv_nxt)
    ensures |k.rcv_queue| >= k.rcv_wnd
  {
    var i :| 0 <= i < |k.rcv_buf| && k.rcv_buf[i].sn == k.rcv_nxt;
    assert Sub(k.rcv_buf[i].sn, k.rcv_nxt) == 0;
  }

  // ---- one round ----

  /** A round: the receiving application takes what is whole, the sender flushes at time t, the receiver
      gets all its packets and flushes at time u, the sender gets all of these. */
  function Round(x: Half, y: Half, t: u32, u: u32): Sys
  {
    var y1 := Received(x, y, t);
    Sys(DeliverAll(KcpSystem.DoUpdate(x, t), Update(y1.k, u).1), KcpSystem.DoUpdate(y1, u))
  }

  /** The receiver with the sender's packets. */
  function Received(x: Half, y: Half, t: u32): Half
  {
    DeliverAll(TakeAll(y), Update(x.k, t).1)
  }

  /** Message mode, a receive window any message fits in, windows that are no half circle together, and
      fewer than 2^31 segments to number. */
  ghost predicate Peers(x: Half, y: Half)
  {
    && SysInv(x, y) && !x.k.stream && y.k.rcv_wnd >= WND_RCV && x.k.snd_wnd + y.k.rcv_wnd <= HALF
    && |x.log| + |x.k.snd_queue| < HALF && |y.log| + |y.k.snd_queue| < HALF
  }

  lemma LogBelow(x: Half, y: Half, t: u32)
    requires SysInv(x, y) && |x.log| + |x.k.snd_queue| < HALF
    ensures |KcpSystem.DoUpdate(x, t).log| < HALF
    ensures var x' := KcpSystem.DoUpdate(x, t); SysInv(x', y) && SameConfig(x.k, x'.k) && x'.sent == x.sent
    ensures KcpSystem.DoUpdate(x, t).k.snd_una == x.k.snd_una
    ensures |KcpSystem.DoUpdate(x, t).log| + |KcpSystem.DoUpdate(x, t).k.snd_queue| == |x.log| + |x.k.snd_queue|
  {
    var n := UpdateEffect(x.k, t, x.log);
    UpdateStep(x, y, t);
    UpdateKeeps(x.k, t);
  }

  /** A flush's packets are in the network afterwards, and short. */
  lemma PacketsOut(x: Half, y: Half, t: u32)
    requires SysInv(x, y)
    ensures AllSentBy(KcpSystem.DoUpdate(x, t), Update(x.k, t).1)
  {
    var k1 := Ticked(x.k, t);
    SideTransfer(x.k, k1);
    forall p | p in Update(x.k, t).1
      ensures p in KcpSystem.DoUpdate(x, t).net && |p| < HALF
    {
      FlushOnTheWire(k1);
    }
  }

  /** The state of x when its flush at time t begins. */
  function Flushing(x: Half, t: u32): Kcp { Ticked(x.k, t) }

  lemma FlushReady(x: Half, t: u32)
    requires Inv(x.k)
    ensures Inv(Flushing(x, t)) && Flushing(x, t).updated
  {
    SideTransfer(x.k, Flushing(x, t));
  }

  lemma FlushAt(x: Half, t: u32)
    requires FlushDue(x.k, t)
    ensures DecodePackets(Update(x.k, t).1, x.k.conv) == Wire(Flushing(x, t))
    ensures Update(x.k, t) == Flush(Flushing(x, t))
  {
    FlushSchedule(x.k, t);
  }

  /** The receiver with all that was sent is still in step with the sender. */
  lemma ReceivedKeeps(x: Half, y: Half, t: u32)
    requires Peers(x, y)
    ensures var x1, y1 := KcpSystem.DoUpdate(x, t), Received(x, y, t);
            && SysInv(x1, y1) && SameConfig(y.k, y1.k) && y1.k.snd_queue == y.k.snd_queue && y1.log == y.log
            && SysInv(y1, x1) && y1.sent == y.sent
  {
    var y0, x1 := TakeAll(y), KcpSystem.DoUpdate(x, t);
    SysInvSym(x, y);
    TakeAllKeeps(y, x);
    SysInvSym(y0, x);
    LogBelow(x, y0, t);
    PacketsOut(x, y0, t);
    SysInvSym(x1, y0);
    DeliverAllKeeps(y0, x1, Update(x.k, t).1);
    SysInvSym(Received(x, y, t), x1);
  }

  lemma RoundKeeps(x: Half, y: Half, t: u32, u: u32)
    requires Peers(x, y)
    ensures var r := Round(x, y, t, u);
            && Peers(r.a, r.b) && SameConfig(x.k, r.a.k) && SameConfig(y.k, r.b.k) && r.a.sent == x.sent
            && |r.a.log| + |r.a.k.snd_queue| == |x.log| + |x.k.snd_queue|
  {
    var x1, y1 := KcpSystem.DoUpdate(x, t), Received(x, y, t);
    ReceivedKeeps(x, y, t);
    LogBelow(x, y, t);
    LogBelow(y1, x1, u);
    PacketsOut(y1, x1, u);
    SysInvSym(KcpSystem.DoUpdate(y1, u), x1);
    DeliverAllKeeps(x1, KcpSystem.DoUpdate(y1, u), Update(y1.k, u).1);
  }

  /** Whatever number the sender pushes in a round, within the receiver's reach, is acknowledged by the
      end of the round. */
  lemma {:induction false} PushedIsAcked(x: Half, y: Half, t: u32, u: u32, sn: u32)
    requires Peers(x, y) && FlushDue(x.k, t) && FlushDue(Received(x, y, t).k, u)
    requires Carries(Wire(Flushing(x, t)), CMD_PUSH, sn) && x.k.snd_una <= sn
    requires sn < TakeAll(y).k.rcv_nxt + y.k.rcv_wnd
    ensures !HasSn(Round(x, y, t, u).a.k.snd_buf, sn)
  {
    var y0, x1, y1 := TakeAll(y), KcpSystem.DoUpdate(x, t), Received(x, y, t);
    PushReceived(x, y, t, sn);
    ReceivedKeeps(x, y, t);
    FlushReady(y1, u);
    OwedIsSaid(Flushing(y1, u), sn);
    FlushAt(y1, u);
    LogBelow(y1, x1, u);
    PacketsOut(y1, x1, u);
    SysInvSym(KcpSystem.DoUpdate(y1, u), x1);
    AckArrives(x1, KcpSystem.DoUpdate(y1, u), Update(y1.k, u).1, sn);
  }

  lemma OwedIsSaid(k: Kcp, sn: u32)
    requires Inv(k) && k.updated && Owed(k, sn)
    ensures Carries(Wire(k), CMD_ACK, sn)
  {
    FlushAnswers(k);
    var a :| a in k.acklist && a.0 == sn;
    var i :| 0 <= i < |k.acklist| && k.acklist[i] == a;
    assert Wire(k)[i] == Control(k, CMD_ACK, a.0, a.1);
    assert Wire(k)[i] in Wire(k);
  }

  lemma {:induction false} PushReceived(x: Half, y: Half, t: u32, sn: u32)
    requires Peers(x, y) && FlushDue(x.k, t) && Carries(Wire(Flushing(x, t)), CMD_PUSH, sn) && x.k.snd_una <= sn
    requires sn < TakeAll(y).k.rcv_nxt + y.k.rcv_wnd
    ensures Owed(Received(x, y, t).k, sn)
  {
    var y0, x1 := TakeAll(y), KcpSystem.DoUpdate(x, t);
    SysInvSym(x, y);
    TakeAllKeeps(y, x);
    SysInvSym(y0, x);
    LogBelow(x, y0, t);
    PacketsOut(x, y0, t);
    SysInvSym(x1, y0);
    FlushAt(x, t);
    LogWithinWindow(x1);
    PushArrives(y0, x1, Update(x.k, t).1, sn);
  }

  lemma LogWithinWindow(x: Half)
    requires Inv(x.k) && SendOk(x.k, x.log)
    ensures |x.log| <= x.k.snd_una + x.k.snd_wnd
  {
    UnaBelow(x);
  }

  // ---- the oldest segment ----

  /** Queued, or numbered and not acknowledged. */
  function Remaining(x: Half): int { |x.log| + |x.k.snd_queue| - x.k.snd_una }

  /** At time t the sender flushes and sends: its oldest buffered segment goes, or without one the window
      is open. */
  ghost predicate Ready(x: Half, t: u32)
  {
    && FlushDue(x.k, t)
    && if x.k.snd_buf != [] then Goes(Flushing(x, t), x.k.snd_buf[0]) else Window(x.k) > 0
  }

  /** Then the number at the left edge of the window is pushed. */
  lemma OldestGoes(x: Half, y: Half, t: u32)
    requires SysInv(x, y) && Ready(x, t) && Remaining(x) > 0
    ensures Carries(Wire(Flushing(x, t)), CMD_PUSH, x.k.snd_una)
  {
    UnaBelow(x);
    FlushReady(x, t);
    EdgeGoes(Flushing(x, t));
  }

  lemma EdgeGoes(k: Kcp)
    requires Inv(k) && k.updated
    requires if k.snd_buf != [] then Goes(k, k.snd_buf[0]) else Window(k) > 0 && k.snd_queue != []
    ensures Carries(Wire(k), CMD_PUSH, k.snd_una)
  {
    FlushPushes(k, k.snd_una);
    if k.snd_buf != [] {
      assert InSendBuffer(k, k.snd_una, k.snd_buf[0]);
    } else {
      assert Sub(k.snd_una, k.snd_nxt) == 0 && NewCount(k) > 0;
    }
  }

  lemma NothingRemains(x: Half)
    requires Inv(x.k) && SendOk(x.k, x.log) && Remaining(x) == 0
    ensures x.k.snd_queue == [] && x.k.snd_buf == []
  {
    HeadLogged(x);
    UnaBelow(x);
  }

  lemma HeadLogged(x: Half)
    requires Inv(x.k) && SendOk(x.k, x.log)
    ensures x.k.snd_buf != [] ==> x.k.snd_una < |x.log|
  {
    if x.k.snd_buf != [] { assert x.k.snd_buf[0] in x.k.snd_buf; }
  }

  lemma NotBelow(x: Half, sn: u32)
    requires Inv(x.k) && SendOk(x.k, x.log) && HasSn(x.k.snd_buf, sn)
    ensures sn >= x.k.snd_una
  {
    if sn < x.k.snd_una { NotBefore(x, sn); }
  }

  /** Once its number is out of the buffer the window has moved on. */
  lemma EdgeMoves(x: Half, x': Half)
    requires Inv(x.k) && SendOk(x.k, x.log) && Inv(x'.k) && SendOk(x'.k, x'.log)
    requires x.log == x'.log && x.k.snd_una < |x.log| && Lasts(x.k, x'.k) && !HasSn(x'.k.snd_buf, x.k.snd_una)
    ensures x'.k.snd_una > x.k.snd_una
  {
    if x'.k.snd_buf != [] {
      var sn := x'.k.snd_buf[0].sn;
      assert HasSn(x'.k.snd_buf, sn);
      NotBelow(x, sn);
    }
  }

  /** In every round in which the sender is ready the left edge of its window moves on. */
  lemma RoundAdvances(x: Half, y: Half, t: u32, u: u32)
    requires Peers(x, y) && Remaining(x) > 0 && Ready(x, t) && FlushDue(Received(x, y, t).k, u)
    ensures Round(x, y, t, u).a.k.snd_una > x.k.snd_una
  {
    var a, x1 := x.k.snd_una, KcpSystem.DoUpdate(x, t);
    OldestGoes(x, y, t);
    InStep(x, y);
    PushedIsAcked(x, y, t, u, a);
    PushedIsLogged(x, y, t, a);
    RoundLasts(x, y, t, u);
    RoundKeeps(x, y, t, u);
    LogBelow(x, y, t);
    EdgeMoves(x1, Round(x, y, t, u).a);
  }

  /** The receiver whose application took all it could has caught up with the sender's window. */
  lemma {:induction false} InStep(x: Half, y: Half)
    requires Peers(x, y)
    ensures x.k.snd_una <= TakeAll(y).k.rcv_nxt
  {
    SysInvSym(x, y);
    TakeAllKeeps(y, x);
    FewLeft(TakeAll(y), x);
    SysInvSym(TakeAll(y), x);
    CaughtUp(x, TakeAll(y));
  }

  lemma PushedIsLogged(x: Half, y: Half, t: u32, sn: u32)
    requires Peers(x, y) && FlushDue(x.k, t) && Carries(Wire(Flushing(x, t)), CMD_PUSH, sn)
    ensures sn < |KcpSystem.DoUpdate(x, t).log|
  {
    var x1 := KcpSystem.DoUpdate(x, t);
    LogBelow(x, y, t);
    FlushAt(x, t);
    var s :| s in Wire(Flushing(x, t)) && s.cmd == CMD_PUSH && s.sn == sn;
    var p := CarriedIn(Update(x.k, t).1, x.k.conv, s);
    assert p in x1.net;
    assert HonestPacket(p, x1.k, x1.log);
  }

  lemma {:induction false} CarriedIn(ps: seq<seq<byte>>, conv: u32, s: Seg) returns (p: seq<byte>)
    requires s in DecodePackets(ps, conv)
    ensures p in ps && s in Decode(p, conv).segs
  {
    if s in Decode(ps[0], conv).segs {
      p := ps[0];
    } else {
      p := CarriedIn(ps[1..], conv, s);
    }
  }

  lemma RoundLasts(x: Half, y: Half, t: u32, u: u32)
    requires Peers(x, y)
    ensures var x1, r := KcpSystem.DoUpdate(x, t), Round(x, y, t, u);
            Lasts(x1.k, r.a.k) && r.a.log == x1.log
  {
    var x1, y1 := KcpSystem.DoUpdate(x, t), Received(x, y, t);
    ReceivedKeeps(x, y, t);
    LogBelow(y1, x1, u);
    PacketsOut(y1, x1, u);
    SysInvSym(KcpSystem.DoUpdate(y1, u), x1);
    DeliverLasts(x1, KcpSystem.DoUpdate(y1, u), Update(y1.k, u).1);
    DeliverAllKeeps(x1, KcpSystem.DoUpdate(y1, u), Update(y1.k, u).1);
  }

  // ---- every message arrives ----

  /** Rounds at the given times, until nothing remains. */
  function Rounds(s: Sys, ts: seq<(u32, u32)>): Sys
    decreases |ts|
  {
    if ts == [] || Remaining(s.a) == 0 then s else Rounds(Round(s.a, s.b, ts[0].0, ts[0].1), ts[1..])
  }

  /** Their times are such that both sides flush and the sender has something to send. */
  ghost predicate InTime(s: Sys, ts: seq<(u32, u32)>)
    decreases |ts|
  {
    ts != [] && Remaining(s.a) != 0 ==>
      && Ready(s.a, ts[0].0) && FlushDue(Received(s.a, s.b, ts[0].0).k, ts[0].1)
      && InTime(Round(s.a, s.b, ts[0].0, ts[0].1), ts[1..])
  }

  lemma RemainingFalls(x: Half, y: Half, t: u32, u: u32)
    requires Peers(x, y) && Remaining(x) > 0 && Ready(x, t) && FlushDue(Received(x, y, t).k, u)
    ensures 0 <= Remaining(Round(x, y, t, u).a) < Remaining(x)
  {
    RoundAdvances(x, y, t, u);
    RoundKeeps(x, y, t, u);
    UnaBelow(Round(x, y, t, u).a);
  }

  lemma {:induction false} RoundsFinish(s: Sys, ts: seq<(u32, u32)>)
    requires Peers(s.a, s.b) && InTime(s, ts) && |ts| >= Remaining(s.a)
    ensures var r := Rounds(s, ts);
            Peers(r.a, r.b) && r.a.sent == s.a.sent && Remaining(r.a) == 0
    decreases |ts|
  {
    UnaBelow(s.a);
    if ts != [] && Remaining(s.a) != 0 {
      RemainingFalls(s.a, s.b, ts[0].0, ts[0].1);
      RoundKeeps(s.a, s.b, ts[0].0, ts[0].1);
      RoundsFinish(Round(s.a, s.b, ts[0].0, ts[0].1), ts[1..]);
    }
  }

  /** With nothing left to acknowledge the receiving application has every message. */
  lemma {:induction false} AllReceived(x: Half, y: Half)
    requires Peers(x, y) && Remaining(x) == 0
    ensures TakeAll(y).rcvd == x.sent
  {
    var y0 := TakeAll(y);
    NothingRemains(x);
    InStep(x, y);
    SysInvSym(x, y);
    TakeAllKeeps(y, x);
    SysInvSym(y0, x);
    AllTaken(x, y0);
  }

  lemma AllTaken(x: Half, y: Half)
    requires SysInv(x, y) && !x.k.stream && PeekSize(y.k) < 0
    requires x.k.snd_queue == [] && y.k.rcv_nxt >= |x.log|
    ensures y.rcvd == x.sent
  {
    PeekExact(y, x);
    if |y.rcvd| < |x.sent| {
      NextIsWhole(x, y);
    } else {
      assert x.sent[..|y.rcvd|] == x.sent;
    }
  }

  /** All fragments of the next message are queued once all that was numbered is in step. */
  lemma NextIsWhole(x: Half, y: Half)
    requires SysInv(x, y) && !x.k.stream && x.k.snd_queue == [] && y.k.rcv_nxt >= |x.log| && |y.rcvd| < |x.sent|
    ensures NextWhole(y, x)
  {
    var n := |y.rcvd|;
    AllFragsSplit(x.sent, n, x.k.mss);
    FragmentsCount(x.sent[n], x.k.mss, false);
    assert x.sent[..n] == y.rcvd;
  }

  /** Liveness without loss: from any state a run reaches, as many rounds as there are segments to number
      or acknowledge bring every message sent to the receiving application, in order. */
  lemma {:induction false} AllArrives(s: Sys, ts: seq<(u32, u32)>)
    requires Peers(s.a, s.b) && InTime(s, ts) && |ts| >= Remaining(s.a)
    ensures TakeAll(Rounds(s, ts).b).rcvd == s.a.sent
  {
    RoundsFinish(s, ts);
    AllReceived(Rounds(s, ts).a, Rounds(s, ts).b);
  }

  // ---- a new pair ----

  /** Two new endpoints, one message of as many fragments as the window lets out: a single round, at any
      two times, delivers it. */
  lemma FirstMessageArrives(x: Half, y: Half, m: Msg, t: u32, u: u32)
    requires KcpSystem.Fresh(x) && KcpSystem.Fresh(y) && x.k.conv == y.k.conv && !x.k.stream
    requires y.k.rcv_wnd >= WND_RCV && x.k.snd_wnd + y.k.rcv_wnd <= HALF
    requires FragCount(|m|, x.k.mss) < WND_RCV && FragCount(|m|, x.k.mss) <= Window(x.k)
    ensures var x0 := KcpSystem.DoSend(x, m);
            x0.sent == [m] && TakeAll(Round(x0, y, t, u).b).rcvd == [m]
  {
    var x0 := KcpSystem.DoSend(x, m);
    FirstSent(x, y, m);
    AllGo(x0, y, t, u);
    RoundKeeps(x0, y, t, u);
    AllReceived(Round(x0, y, t, u).a, Round(x0, y, t, u).b);
  }

  /** Not used before, with a few segments queued. */
  ghost predicate Unused(x: Half, y: Half)
  {
    && Peers(x, y) && !x.k.updated && !y.k.updated && x.log == [] && x.k.snd_una == 0 && y.k.rcv_queue == []
    && |x.k.snd_queue| <= Window(x.k) && |x.k.snd_queue| <= y.k.rcv_wnd
  }

  lemma FirstSent(x: Half, y: Half, m: Msg)
    requires KcpSystem.Fresh(x) && KcpSystem.Fresh(y) && x.k.conv == y.k.conv && !x.k.stream
    requires y.k.rcv_wnd >= WND_RCV && x.k.snd_wnd + y.k.rcv_wnd <= HALF
    requires FragCount(|m|, x.k.mss) < WND_RCV && FragCount(|m|, x.k.mss) <= Window(x.k)
    ensures Unused(KcpSystem.DoSend(x, m), y) && KcpSystem.DoSend(x, m).sent == [m]
  {
    FreshInv(x, y);
    SendStep(x, y, m);
    FirstQueued(x.k, m);
  }

  lemma FirstQueued(k: Kcp, m: Msg)
    requires k.mss > 0 && !k.stream && k.snd_queue == [] && FragCount(|m|, k.mss) < WND_RCV
    ensures var (k', ret) := Send(k, m);
            ret == 0 && |k'.snd_queue| == FragCount(|m|, k.mss)
            && k' == k.(snd_queue := k'.snd_queue, nsnd_que := k'.nsnd_que)
  {
    FragmentsCount(m, k.mss, false);
    SendWhole(k, m);
  }

  lemma AllGo(x: Half, y: Half, t: u32, u: u32)
    requires Unused(x, y)
    ensures Remaining(Round(x, y, t, u).a) == 0
  {
    var a := Round(x, y, t, u).a;
    LogBelow(x, y, t);
    QueueEmptied(x, t);
    RoundLasts(x, y, t, u);
    RoundKeeps(x, y, t, u);
    forall sn: u32 | sn < |x.k.snd_queue|
      ensures !HasSn(a.k.snd_buf, sn)
    {
      EachGoes(x, y, t, u, sn);
    }
    NoneLeft(a);
  }

  lemma NoneLeft(x: Half)
    requires Inv(x.k) && SendOk(x.k, x.log) && forall sn: u32 :: sn < |x.log| ==> !HasSn(x.k.snd_buf, sn)
    ensures x.k.snd_una == |x.log|
  {
    HeadLogged(x);
    if x.k.snd_buf != [] { assert HasSn(x.k.snd_buf, x.k.snd_buf[0].sn); }
  }

  lemma QueueEmptied(x: Half, t: u32)
    requires Inv(x.k) && !x.k.updated && x.k.snd_nxt == x.k.snd_una && |x.k.snd_queue| <= Window(x.k)
    ensures Update(x.k, t).0.snd_queue == []
  {
    FlushReady(x, t);
    AllNew(Flushing(x, t));
    FlushAt(x, t);
  }

  lemma AllNew(k: Kcp)
    requires Inv(k) && k.updated && k.snd_nxt == k.snd_una && |k.snd_queue| <= Window(k)
    ensures Flush(k).0.snd_queue == []
  {
    FlushLeaves(k);
  }

  lemma {:induction false} StillUnused(x: Half, y: Half, t: u32)
    requires Unused(x, y)
    ensures !Received(x, y, t).k.updated && TakeAll(y) == y
  {
    SysInvSym(x, y);
    LogBelow(x, y, t);
    PacketsOut(x, y, t);
    SysInvSym(KcpSystem.DoUpdate(x, t), y);
    DeliverLasts(y, KcpSystem.DoUpdate(x, t), Update(x.k, t).1);
  }

  lemma EachGoes(x: Half, y: Half, t: u32, u: u32, sn: u32)
    requires Unused(x, y) && sn < |x.k.snd_queue|
    ensures !HasSn(Round(x, y, t, u).a.k.snd_buf, sn)
  {
    NewGoes(x, t, sn);
    StillUnused(x, y, t);
    PushedIsAcked(x, y, t, u, sn);
  }

  lemma NewGoes(x: Half, t: u32, sn: u32)
    requires Inv(x.k) && !x.k.updated && x.k.snd_nxt == x.k.snd_una == 0 && sn < |x.k.snd_queue| <= Window(x.k)
    ensures FlushDue(x.k, t) && Carries(Wire(Flushing(x, t)), CMD_PUSH, sn)
  {
    FlushReady(x, t);
    NewPushed(Flushing(x, t), sn);
  }

  lemma NewPushed(k: Kcp, sn: u32)
    requires Inv(k) && k.updated && k.snd_nxt == k.snd_una == 0 && sn < |k.snd_queue| <= Window(k)
    ensures Carries(Wire(k), CMD_PUSH, sn)
  {
    FlushPushes(k, sn);
  }
}
