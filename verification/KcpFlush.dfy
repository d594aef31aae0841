/** What ikcp_flush and ikcp_update do, said of the packets they hand to the network and of the state
    before and after: what is sent and what is not, and when it is sent again. */
module KcpFlush {
  import opened U32
  import opened KcpWire
  import opened KcpModel
  import opened KcpLocal

  // ---- numbering queued segments ----

  /** The window that bounds what may be unacknowledged. */
  function Window(k: Kcp): (w: int)
    ensures w >= 0
  {
    var w := if k.snd_wnd <= k.rmt_wnd then k.snd_wnd else k.rmt_wnd;
    if k.ctl.nocwnd || w <= k.ctl.cwnd then w else k.ctl.cwnd
  }

  /** How many queued segments a flush numbers: as many as there are and the window has room for. */
  function NewCount(k: Kcp): (n: nat)
    ensures n <= |k.snd_queue|
  {
    Min(|k.snd_queue|, Max(0, Window(k) - Sub(k.snd_nxt, k.snd_una)))
  }

  /** The j-th of them once it is numbered and not yet sent. */
  ghost predicate Fresh(k: Kcp, j: nat, t: Seg)
    requires j < |k.snd_queue|
  {
    && t.sn == Wrap(k.snd_nxt + j) && t.frg == k.snd_queue[j].frg && t.data == k.snd_queue[j].data
    && t.conv == k.conv && t.cmd == CMD_PUSH && t.xmit == 0 && t.fastack == 0
  }

  /** n segments moved from the queue to the buffer. */
  ghost predicate Moved(k: Kcp, k': Kcp, n: nat)
  {
    && n <= |k.snd_queue| && k'.snd_queue == k.snd_queue[n..] && k'.snd_nxt == Wrap(k.snd_nxt + n)
    && |k'.snd_buf| == |k.snd_buf| + n && k'.snd_buf[..|k.snd_buf|] == k.snd_buf
    && (forall i :: |k.snd_buf| <= i < |k'.snd_buf| ==> Fresh(k, i - |k.snd_buf|, k'.snd_buf[i]))
    && k' == k.(snd_queue := k'.snd_queue, nsnd_que := k'.nsnd_que, snd_buf := k'.snd_buf, nsnd_buf := k'.nsnd_buf,
                snd_nxt := k'.snd_nxt)
  }

  lemma {:induction false} AdmitExact(k: Kcp, cwnd: u32)
    requires ConfigOk(k) && Sub(k.snd_nxt, k.snd_una) <= k.snd_wnd && cwnd <= k.snd_wnd
    ensures Moved(k, Admit(k, cwnd), Min(|k.snd_queue|, Max(0, cwnd - Sub(k.snd_nxt, k.snd_una))))
    decreases |k.snd_queue|
  {
    if Diff(k.snd_nxt, Add(k.snd_una, cwnd)) < 0 && k.snd_queue != [] {
      var k1 := AdmitOne(k);
      assert Sub(k.snd_nxt, k.snd_una) < cwnd;
      assert Sub(k1.snd_nxt, k1.snd_una) == Sub(k.snd_nxt, k.snd_una) + 1;
      AdmitExact(k1, cwnd);
      OneMoreMoved(k, k1, Admit(k, cwnd), Min(|k1.snd_queue|, Max(0, cwnd - Sub(k1.snd_nxt, k1.snd_una))));
    } else {
      assert Sub(k.snd_nxt, k.snd_una) >= cwnd || k.snd_queue == [];
    }
  }

  lemma NextNumber(a: u32, j: nat)
    requires j > 0
    ensures Wrap(Add(a, 1) + (j - 1)) == Wrap(a + j)
  {
  }

  lemma OneMoreMoved(k: Kcp, k1: Kcp, k': Kcp, n: nat)
    requires k.snd_queue != [] && k1 == AdmitOne(k) && Moved(k1, k', n)
    ensures Moved(k, k', n + 1)
  {
    var b := |k.snd_buf|;
    assert k'.snd_buf[..b] == k1.snd_buf[..b] == k.snd_buf;
    assert k'.snd_buf[b] == k1.snd_buf[b];
    forall i | b <= i < |k'.snd_buf|
      ensures Fresh(k, i - b, k'.snd_buf[i])
    {
      if i > b {
        assert Fresh(k1, i - b - 1, k'.snd_buf[i]);
        NextNumber(k.snd_nxt, i - b);
      }
    }
    NextNumber(k.snd_nxt, n + 1);
  }

  lemma WindowIs(k: Kcp)
    ensures EffectiveWnd(k) == Window(k) <= k.snd_wnd
  {
  }

  /** The state the data loop starts with. */
  lemma ReadyExact(k: Kcp)
    requires ConfigOk(k) && SendSide(k)
    ensures Moved(Probed(k), ReadyToSend(k), NewCount(k)) && NewCount(k) < M
  {
    WindowIs(k);
    AdmitExact(Probed(k), EffectiveWnd(k));
  }

  // ---- which segments go ----

  predicate TimedOut(k: Kcp, t: Seg)
  {
    t.xmit != 0 && Diff(k.current, t.resendts) >= 0
  }

  /** How many skips ask for a fast retransmission. */
  function SkipLimit(c: Ctl): u32
  {
    if c.fastresend > 0 then Wrap(c.fastresend) else M - 1
  }

  /** Skipped by as many acknowledgements as fast retransmission asks for, and not sent too often. */
  predicate Skipped(k: Kcp, t: Seg)
  {
    && t.fastack >= SkipLimit(k.ctl)
    && (k.ctl.fastlimit <= 0 || Signed(t.xmit) <= k.ctl.fastlimit)
  }

  /** A buffered segment goes: it was never sent, its time has come, or it was skipped. */
  predicate Goes(k: Kcp, t: Seg) { t.xmit == 0 || TimedOut(k, t) || Skipped(k, t) }

  /** What the loop keeps of a segment, sent or not. */
  ghost predicate SameContent(t: Seg, t': Seg)
  {
    t'.sn == t.sn && t'.cmd == t.cmd && t'.frg == t.frg && t'.data == t.data && t'.conv == t.conv
  }

  function AllSent(k: Kcp, buf: seq<Seg>): (r: seq<Seg>)
    ensures |r| == |buf| && forall i :: 0 <= i < |buf| ==> r[i] == Transmit(k, buf[i]) && SameContent(buf[i], r[i])
  {
    seq(|buf|, i requires 0 <= i < |buf| => Transmit(k, buf[i]))
  }

  function AllGoing(k: Kcp, buf: seq<Seg>): (r: seq<bool>)
    ensures |r| == |buf| && forall i :: 0 <= i < |buf| ==> r[i] == Goes(k, buf[i])
  {
    seq(|buf|, i requires 0 <= i < |buf| => Goes(k, buf[i]))
  }

  /** The segments picked out of sent, in their order. */
  function Pick(sent: seq<Seg>, going: seq<bool>): (r: seq<Seg>)
    requires |sent| == |going|
  {
    if sent == [] then [] else
      var n := |sent| - 1;
      Pick(sent[..n], going[..n]) + (if going[n] then [sent[n]] else [])
  }

  lemma {:induction false} SweptPicks(k: Kcp, buf: seq<Seg>)
    ensures SweepAll(k, buf).buf == AllSent(k, buf)
    ensures SweepAll(k, buf).out == Pick(AllSent(k, buf), AllGoing(k, buf))
  {
    if buf != [] {
      var n := |buf| - 1;
      SweptPicks(k, buf[..n]);
      Snoc(k, buf);
      StepPicks(k, SweepAll(k, buf[..n]), buf[n]);
    }
  }

  lemma Snoc(k: Kcp, buf: seq<Seg>)
    requires buf != []
    ensures var n := |buf| - 1; var sent, going := AllSent(k, buf), AllGoing(k, buf);
            && sent == AllSent(k, buf[..n]) + [Transmit(k, buf[n])] && sent[..n] == AllSent(k, buf[..n])
            && going[..n] == AllGoing(k, buf[..n]) && going[n] == Goes(k, buf[n])
  {
  }

  lemma StepPicks(k: Kcp, w: Sweep, t: Seg)
    ensures SweepOne(k, w, t).buf == w.buf + [Transmit(k, t)]
    ensures SweepOne(k, w, t).out == w.out + (if Goes(k, t) then [Transmit(k, t)] else [])
  {
    assert Goes(k, t) <==> !Why(k, t).Hold?;
  }

  lemma {:induction false} PickedOnes(sent: seq<Seg>, going: seq<bool>)
    requires |sent| == |going|
    ensures forall i :: 0 <= i < |sent| && going[i] ==> sent[i] in Pick(sent, going)
    ensures forall s :: s in Pick(sent, going) ==> exists i :: 0 <= i < |sent| && going[i] && s == sent[i]
  {
    if sent != [] {
      var n := |sent| - 1;
      PickedOnes(sent[..n], going[..n]);
      forall i | 0 <= i < n && going[i]
        ensures sent[i] in Pick(sent, going)
      {
        assert going[..n][i] && sent[..n][i] in Pick(sent[..n], going[..n]);
      }
      forall s | s in Pick(sent[..n], going[..n])
        ensures exists i :: 0 <= i < |sent| && going[i] && s == sent[i]
      {
        var i :| 0 <= i < n && going[..n][i] && s == sent[..n][i];
        assert going[i] && s == sent[i];
      }
    }
  }

  lemma {:induction false} PickedOrdered(sent: seq<Seg>, going: seq<bool>, base: u32, limit: int)
    requires |sent| == |going| && Ordered(sent, base, limit)
    ensures Ordered(Pick(sent, going), base, limit)
  {
    if sent != [] {
      var n := |sent| - 1;
      PickedOrdered(sent[..n], going[..n], base, limit);
      PickedOnes(sent[..n], going[..n]);
      var r := Pick(sent[..n], going[..n]);
      forall j | 0 <= j < |r|
        ensures Sub(r[j].sn, base) < Sub(sent[n].sn, base)
      {
        assert r[j] in r;
      }
    }
  }

  // ---- what is on the wire ----

  /** What the receiving side decodes of a flush. */
  function Wire(k: Kcp): seq<Seg> { DecodePackets(Flush(k).1, k.conv) }

  lemma WireIs(k: Kcp)
    requires Inv(k) && k.updated
    ensures var k1 := ReadyToSend(k);
            Wire(k) == AllOnWire(AckSegs(k) + ProbeSegs(k) + SweepAll(k1, k1.snd_buf).out)
  {
    FlushOnTheWire(k);
  }

  ghost predicate Carries(q: seq<Seg>, cmd: u32, sn: u32)
  {
    exists s :: s in q && s.cmd == cmd && s.sn == sn
  }

  ghost predicate InSendBuffer(k: Kcp, sn: u32, t: Seg) { t in k.snd_buf && t.sn == sn }

  /** A flush sends number sn if and only if it numbers it now, or it is buffered and goes. */
  lemma FlushPushes(k: Kcp, sn: u32)
    requires Inv(k) && k.updated
    ensures Carries(Wire(k), CMD_PUSH, sn)
            <==> Sub(sn, k.snd_nxt) < NewCount(k) || exists t :: InSendBuffer(k, sn, t) && Goes(k, t)
  {
    WireIs(k);
    ReadyKeeps(k);
    ReadyExact(k);
    PushesAre(k, ReadyToSend(k), NewCount(k), sn);
  }

  lemma {:induction false} PushesAre(k: Kcp, k1: Kcp, n: nat, sn: u32)
    requires SendSide(k1) && Moved(Probed(k), k1, n) && n < M
    ensures Carries(AllOnWire(AckSegs(k) + ProbeSegs(k) + SweepAll(k1, k1.snd_buf).out), CMD_PUSH, sn)
            <==> Sub(sn, k.snd_nxt) < n || exists t :: InSendBuffer(k, sn, t) && Goes(k, t)
  {
    PushedFrom(k, k1, sn);
    BufferedSplit(k, k1, n, sn);
  }

  /** Pushed segments come from the sweep of the buffer. */
  lemma {:induction false} PushedFrom(k: Kcp, k1: Kcp, sn: u32)
    requires SendSide(k1)
    ensures Carries(AllOnWire(AckSegs(k) + ProbeSegs(k) + SweepAll(k1, k1.snd_buf).out), CMD_PUSH, sn)
            <==> exists i :: 0 <= i < |k1.snd_buf| && k1.snd_buf[i].sn == sn && Goes(k1, k1.snd_buf[i])
  {
    var c, out := AckSegs(k) + ProbeSegs(k), SweepAll(k1, k1.snd_buf).out;
    SweptNumbers(k1, sn);
    forall j | 0 <= j < |c|
      ensures c[j].cmd != CMD_PUSH && c[j].cmd < 256
    {
      ControlsOnly(k, j);
    }
    SecondPart(c, out, sn);
  }

  lemma {:induction false} SweptNumbers(k: Kcp, sn: u32)
    requires SendSide(k)
    ensures forall s :: s in SweepAll(k, k.snd_buf).out ==> s.cmd == CMD_PUSH
    ensures (exists s :: s in SweepAll(k, k.snd_buf).out && s.sn == sn)
            <==> exists i :: 0 <= i < |k.snd_buf| && k.snd_buf[i].sn == sn && Goes(k, k.snd_buf[i])
  {
    SweptPicks(k, k.snd_buf);
    PickedOnes(AllSent(k, k.snd_buf), AllGoing(k, k.snd_buf));
    Picked(k.snd_buf, AllSent(k, k.snd_buf), AllGoing(k, k.snd_buf), SweepAll(k, k.snd_buf).out, sn);
  }

  lemma Picked(buf: seq<Seg>, sent: seq<Seg>, going: seq<bool>, out: seq<Seg>, sn: u32)
    requires |sent| == |going| == |buf| && forall i :: 0 <= i < |buf| ==> SameContent(buf[i], sent[i])
    requires forall i :: 0 <= i < |buf| && going[i] ==> sent[i] in out
    requires forall s :: s in out ==> exists i :: 0 <= i < |buf| && going[i] && s == sent[i]
    requires forall s :: s in buf ==> s.cmd == CMD_PUSH
    ensures forall s :: s in out ==> s.cmd == CMD_PUSH
    ensures (exists s :: s in out && s.sn == sn) <==> exists i :: 0 <= i < |buf| && buf[i].sn == sn && going[i]
  {
    forall i | 0 <= i < |buf|
      ensures sent[i].cmd == CMD_PUSH
    {
      assert buf[i] in buf;
    }
    if i :| 0 <= i < |buf| && buf[i].sn == sn && going[i] {
      assert sent[i] in out && sent[i].sn == sn;
    }
  }

  lemma SecondPart(c: seq<Seg>, out: seq<Seg>, sn: u32)
    requires forall j :: 0 <= j < |c| ==> c[j].cmd != CMD_PUSH && c[j].cmd < 256
    requires forall s :: s in out ==> s.cmd == CMD_PUSH
    ensures Carries(AllOnWire(c + out), CMD_PUSH, sn) <==> exists s :: s in out && s.sn == sn
  {
    var w := AllOnWire(c + out);
    if s :| s in w && s.cmd == CMD_PUSH && s.sn == sn {
      var j :| 0 <= j < |w| && w[j] == s;
      assert w[j] == OnWire((c + out)[j]);
      if j < |c| {
        assert false;
      }
      assert (c + out)[j] in out;
    }
    if s :| s in out && s.sn == sn {
      var j :| 0 <= j < |out| && out[j] == s;
      assert w[|c| + j] == OnWire((c + out)[|c| + j]) == OnWire(s);
    }
  }

  lemma ControlsOnly(k: Kcp, j: nat)
    requires j < |AckSegs(k) + ProbeSegs(k)|
    ensures var s := (AckSegs(k) + ProbeSegs(k))[j];
            s.cmd == if j < |k.acklist| then CMD_ACK else s.cmd
    ensures var s := (AckSegs(k) + ProbeSegs(k))[j]; s.cmd == CMD_ACK || s.cmd == CMD_WASK || s.cmd == CMD_WINS
  {
  }

  lemma Numbering(a: u32, j: nat, sn: u32)
    requires j < M
    ensures Wrap(a + j) == sn <==> Sub(sn, a) == j
  {
  }

  lemma BufferedSplit(k: Kcp, k1: Kcp, n: nat, sn: u32)
    requires Moved(Probed(k), k1, n) && n < M
    ensures (exists i :: 0 <= i < |k1.snd_buf| && k1.snd_buf[i].sn == sn && Goes(k1, k1.snd_buf[i]))
            <==> Sub(sn, k.snd_nxt) < n || exists t :: InSendBuffer(k, sn, t) && Goes(k, t)
  {
    var b := |k.snd_buf|;
    if i :| 0 <= i < |k1.snd_buf| && k1.snd_buf[i].sn == sn && Goes(k1, k1.snd_buf[i]) {
      if i < b {
        assert k1.snd_buf[..b][i] == k.snd_buf[i];
        assert InSendBuffer(k, sn, k.snd_buf[i]) && Goes(k, k.snd_buf[i]);
      } else {
        assert Fresh(Probed(k), i - b, k1.snd_buf[i]);
        Numbering(k.snd_nxt, i - b, sn);
      }
    }
    if Sub(sn, k.snd_nxt) < n {
      var j := Sub(sn, k.snd_nxt);
      assert Fresh(Probed(k), j, k1.snd_buf[b + j]);
      Numbering(k.snd_nxt, j, sn);
    }
    if t :| InSendBuffer(k, sn, t) && Goes(k, t) {
      var i :| 0 <= i < b && k.snd_buf[i] == t;
      assert k1.snd_buf[..b][i] == t;
    }
  }

  /** The room that is advertised. */
  function Free(k: Kcp): int { k.rcv_wnd - |k.rcv_queue| }

  /** What a flush says of its sender on every segment. */
  ghost predicate Signed16(k: Kcp, s: Seg)
  {
    s.conv == k.conv && s.una == k.rcv_nxt && s.wnd == Free(k) % 0x1_0000
  }

  lemma {:induction false} WireParts(k: Kcp)
    requires Inv(k) && k.updated
    ensures var k1 := ReadyToSend(k);
            Wire(k) == AllOnWire(AckSegs(k)) + AllOnWire(ProbeSegs(k))
                       + AllOnWire(Pick(AllSent(k1, k1.snd_buf), AllGoing(k1, k1.snd_buf)))
  {
    var k1 := ReadyToSend(k);
    WireIs(k);
    SweptPicks(k1, k1.snd_buf);
  }

  /** A control segment as it arrives. */
  function Control(k: Kcp, cmd: u32, sn: u32, ts: u32): Seg
  {
    Seg(k.conv, cmd, 0, Wrap(Free(k) % 0x1_0000), ts, sn, k.rcv_nxt, 0, 0, 0, 0, [])
  }

  /** The acknowledgements first, as listed, and no others. */
  ghost predicate AcksFirst(k: Kcp, w: seq<Seg>)
  {
    && |k.acklist| <= |w|
    && (forall i :: 0 <= i < |k.acklist| ==> w[i] == Control(k, CMD_ACK, k.acklist[i].0, k.acklist[i].1))
    && (forall i :: |k.acklist| <= i < |w| ==> w[i].cmd != CMD_ACK)
  }

  ghost predicate Says(w: seq<Seg>, cmd: u32) { exists s :: s in w && s.cmd == cmd }

  /** A flush starts with the acknowledgements that are owed, in order, and says no others; it asks for
      the peer's window if and only if it was to or the probe timer ran out, and tells its own if and
      only if it was to. */
  lemma FlushAnswers(k: Kcp)
    requires Inv(k) && k.updated
    ensures AcksFirst(k, Wire(k))
    ensures Says(Wire(k), CMD_WASK) <==>
            k.askSend || (k.rmt_wnd == 0 && k.ctl.probe_wait != 0 && Diff(k.current, k.ctl.ts_probe) >= 0)
    ensures Says(Wire(k), CMD_WINS) <==> k.askTell
  {
    var k1 := ReadyToSend(k);
    WireParts(k);
    ReadyKeeps(k);
    PickedPushes(k1);
    Answers(k, AllOnWire(Pick(AllSent(k1, k1.snd_buf), AllGoing(k1, k1.snd_buf))));
  }

  lemma Answers(k: Kcp, d: seq<Seg>)
    requires Inv(k) && forall s :: s in d ==> s.cmd == CMD_PUSH
    ensures var w := AllOnWire(AckSegs(k)) + AllOnWire(ProbeSegs(k)) + d;
            AcksFirst(k, w) && (Says(w, CMD_WASK) <==> k.askSend || ProbeDue(k)) && (Says(w, CMD_WINS) <==> k.askTell)
  {
    var a, p := AllOnWire(AckSegs(k)), AllOnWire(ProbeSegs(k));
    AcksSay(k);
    ProbesSay(k, p);
    ThreeParts(a, p, d, CMD_WASK);
    ThreeParts(a, p, d, CMD_WINS);
  }

  lemma ThreeParts(a: seq<Seg>, p: seq<Seg>, d: seq<Seg>, cmd: u32)
    requires (forall s :: s in a ==> s.cmd != cmd) && (forall s :: s in d ==> s.cmd != cmd)
    ensures Says(a + p + d, cmd) <==> Says(p, cmd)
  {
  }

  lemma PickedPushes(k: Kcp)
    requires SendSide(k)
    ensures forall s :: s in AllOnWire(Pick(AllSent(k, k.snd_buf), AllGoing(k, k.snd_buf))) ==> s.cmd == CMD_PUSH
  {
    var sent := AllSent(k, k.snd_buf);
    forall i | 0 <= i < |sent|
      ensures sent[i].cmd == CMD_PUSH
    {
      assert k.snd_buf[i] in k.snd_buf;
    }
    PickedCmd(sent, AllGoing(k, k.snd_buf));
  }

  lemma {:induction false} PickedCmd(sent: seq<Seg>, going: seq<bool>)
    requires |sent| == |going| && forall i :: 0 <= i < |sent| ==> sent[i].cmd == CMD_PUSH
    ensures forall s :: s in AllOnWire(Pick(sent, going)) ==> s.cmd == CMD_PUSH
  {
    var d := Pick(sent, going);
    PickedOnes(sent, going);
    forall s | s in AllOnWire(d)
      ensures s.cmd == CMD_PUSH
    {
      var j :| 0 <= j < |d| && OnWire(d[j]) == s;
      assert d[j] in d;
    }
  }

  lemma AcksSay(k: Kcp)
    requires Inv(k)
    ensures forall i :: 0 <= i < |k.acklist| ==>
              AllOnWire(AckSegs(k))[i] == Control(k, CMD_ACK, k.acklist[i].0, k.acklist[i].1)
  {
  }

  lemma ProbesSay(k: Kcp, p: seq<Seg>)
    requires p == AllOnWire(ProbeSegs(k))
    ensures forall s :: s in p ==> s.cmd == CMD_WASK || s.cmd == CMD_WINS
    ensures Says(p, CMD_WASK) <==> k.askSend || ProbeDue(k)
    ensures Says(p, CMD_WINS) <==> k.askTell
  {
    var q := ProbeSegs(k);
    if k.askSend || ProbeDue(k) { assert p[0] == OnWire(q[0]); }
    if k.askTell { assert p[|p| - 1] == OnWire(q[|q| - 1]); }
  }

  /** Pushed data is what its number stands for, with the sender's time, room and next number. */
  lemma FlushCarries(k: Kcp, s: Seg)
    requires Inv(k) && k.updated && s in Wire(k) && s.cmd == CMD_PUSH
    ensures Signed16(k, s) && s.ts == k.current
    ensures (exists t :: InSendBuffer(k, s.sn, t) && t.frg == s.frg && t.data == s.data)
            || (Sub(s.sn, k.snd_nxt) < NewCount(k)
                && var t := k.snd_queue[Sub(s.sn, k.snd_nxt)]; t.frg == s.frg && t.data == s.data)
  {
    ReadyKeeps(k);
    ReadyExact(k);
    var i := PushedSource(k, s);
    CarriedBy(k, ReadyToSend(k), i, s);
  }

  lemma CarriedBy(k: Kcp, k1: Kcp, i: nat, s: Seg)
    requires Inv(k) && SendSide(k1) && Moved(Probed(k), k1, NewCount(k)) && NewCount(k) < M
    requires i < |k1.snd_buf| && Goes(k1, k1.snd_buf[i]) && s == OnWire(Transmit(k1, k1.snd_buf[i]))
    ensures Signed16(k, s) && s.ts == k.current
    ensures (exists t :: InSendBuffer(k, s.sn, t) && t.frg == s.frg && t.data == s.data)
            || (Sub(s.sn, k.snd_nxt) < NewCount(k)
                && var t := k.snd_queue[Sub(s.sn, k.snd_nxt)]; t.frg == s.frg && t.data == s.data)
  {
    var t := k1.snd_buf[i];
    assert t in k1.snd_buf;
    Heads(k, k1, t);
    if i < |k.snd_buf| {
      assert k1.snd_buf[..|k.snd_buf|][i] == t;
      assert InSendBuffer(k, s.sn, k.snd_buf[i]);
    } else {
      assert Fresh(Probed(k), i - |k.snd_buf|, t);
      Numbering(k.snd_nxt, i - |k.snd_buf|, s.sn);
    }
  }

  lemma PushedSource(k: Kcp, s: Seg) returns (i: nat)
    requires Inv(k) && k.updated && s in Wire(k) && s.cmd == CMD_PUSH
    ensures var k1 := ReadyToSend(k);
            i < |k1.snd_buf| && Goes(k1, k1.snd_buf[i]) && s == OnWire(Transmit(k1, k1.snd_buf[i]))
  {
    var k1 := ReadyToSend(k);
    WireParts(k);
    ControlsFirst(k);
    i := SourceOf(AllOnWire(AckSegs(k)) + AllOnWire(ProbeSegs(k)), AllSent(k1, k1.snd_buf), AllGoing(k1, k1.snd_buf),
                  s);
  }

  lemma ControlsFirst(k: Kcp)
    ensures forall s :: s in AllOnWire(AckSegs(k)) + AllOnWire(ProbeSegs(k)) ==> s.cmd != CMD_PUSH
  {
    ProbesSay(k, AllOnWire(ProbeSegs(k)));
  }

  lemma SourceOf(c: seq<Seg>, sent: seq<Seg>, going: seq<bool>, s: Seg) returns (i: nat)
    requires |sent| == |going| && s in c + AllOnWire(Pick(sent, going)) && s !in c
    ensures i < |sent| && going[i] && s == OnWire(sent[i])
  {
    var d := Pick(sent, going);
    var j :| 0 <= j < |d| && OnWire(d[j]) == s;
    PickedOnes(sent, going);
    assert d[j] in d;
    i :| 0 <= i < |sent| && going[i] && d[j] == sent[i];
  }

  lemma Heads(k: Kcp, k1: Kcp, t: Seg)
    requires Inv(k) && Moved(Probed(k), k1, NewCount(k)) && Goes(k1, t)
    requires t.cmd == CMD_PUSH && t.conv == k.conv && t.frg < WND_RCV
    ensures var s := OnWire(Transmit(k1, t));
            Signed16(k, s) && s.ts == k.current && s.sn == t.sn && s.frg == t.frg && s.data == t.data
  {
  }

  // ---- what is kept for the next time ----

  /** How long to wait after a timeout: nodelay 0 at least doubles the wait, else half is added. */
  function Longer(c: Ctl, rto: u32): u32
  {
    if c.nodelay == 0 then Wrap(rto + Max(rto, c.rto))
    else if c.nodelay < 2 then Wrap(rto + TruncDiv(Signed(rto), 2))
    else Wrap(rto + TruncDiv(Signed(c.rto), 2))
  }

  /** A buffered segment before and after a flush: untouched, or sent once more and to be sent again
      when its wait is over. */
  ghost predicate Later(k: Kcp, t: Seg, t': Seg)
  {
    && SameContent(t, t')
    && if !Goes(k, t) then t' == t
       else
         && t'.xmit == Add(t.xmit, 1) && t'.ts == k.current && t'.una == k.rcv_nxt && t'.wnd == Free(k)
         && if t.xmit == 0 then
              && t'.rto == k.ctl.rto && t'.fastack == t.fastack
              && t'.resendts == Wrap(k.current + k.ctl.rto + if k.ctl.nodelay == 0 then k.ctl.rto / 8 else 0)
            else if TimedOut(k, t) then
              t'.rto == Longer(k.ctl, t.rto) && t'.resendts == Add(k.current, t'.rto) && t'.fastack == t.fastack
            else
              t'.rto == t.rto && t'.resendts == Add(k.current, t.rto) && t'.fastack == 0
  }

  /** What a flush leaves: n segments more are numbered, every buffered one is as Later says, the queue
      is empty or the window full, and nothing is owed to the peer. */
  ghost predicate Left(k: Kcp, k': Kcp, n: nat)
  {
    && n <= |k.snd_queue| && k'.snd_queue == k.snd_queue[n..] && k'.snd_nxt == Wrap(k.snd_nxt + n)
    && (k'.snd_queue == [] || Sub(k'.snd_nxt, k'.snd_una) >= Window(k))
    && |k'.snd_buf| == |k.snd_buf| + n
    && (forall i :: 0 <= i < |k.snd_buf| ==> Later(k, k.snd_buf[i], k'.snd_buf[i]))
    && (forall i :: |k.snd_buf| <= i < |k'.snd_buf| ==> Numbered(k, i - |k.snd_buf|, k'.snd_buf[i]))
    && k'.acklist == [] && !k'.askSend && !k'.askTell
  }

  /** The j-th queued segment numbered and sent. */
  ghost predicate Numbered(k: Kcp, j: nat, t': Seg)
    requires j < |k.snd_queue|
  {
    exists t :: Fresh(k, j, t) && Later(k, t, t')
  }

  lemma FlushLeaves(k: Kcp)
    requires Inv(k) && k.updated
    ensures Left(k, Flush(k).0, NewCount(k))
  {
    var k1 := ReadyToSend(k);
    ReadyKeeps(k);
    ReadyExact(k);
    SweptPicks(k1, k1.snd_buf);
    LeftOf(k, k1, Flush(k).0);
  }

  lemma LeftOf(k: Kcp, k1: Kcp, k': Kcp)
    requires Inv(k) && Moved(Probed(k), k1, NewCount(k))
    requires k' == k1.(snd_buf := AllSent(k1, k1.snd_buf), ctl := k'.ctl)
    ensures Left(k, k', NewCount(k))
  {
    var b := |k.snd_buf|;
    forall i | 0 <= i < |k1.snd_buf|
      ensures Later(k, k1.snd_buf[i], k'.snd_buf[i])
    {
      LaterIs(k, k1, k1.snd_buf[i]);
    }
    forall i | 0 <= i < b
      ensures k1.snd_buf[i] == k.snd_buf[i]
    {
      assert k1.snd_buf[..b][i] == k.snd_buf[i];
    }
    forall i | b <= i < |k1.snd_buf|
      ensures Numbered(k, i - b, k'.snd_buf[i])
    {
      assert Fresh(Probed(k), i - b, k1.snd_buf[i]);
      assert Fresh(k, i - b, k1.snd_buf[i]);
    }
    WindowFull(k, k1);
  }

  lemma LaterIs(k: Kcp, k1: Kcp, t: Seg)
    requires Inv(k) && Moved(Probed(k), k1, NewCount(k))
    ensures Later(k, t, Transmit(k1, t))
  {
  }

  lemma WindowFull(k: Kcp, k1: Kcp)
    requires Inv(k) && Moved(Probed(k), k1, NewCount(k))
    ensures k1.snd_queue == [] || Sub(k1.snd_nxt, k.snd_una) >= Window(k)
  {
  }

  /** Every buffered segment has been sent, unless its count of 2^32 - 1 just ran over. */
  lemma AllWereSent(k: Kcp)
    requires Inv(k) && k.updated
    ensures forall i :: 0 <= i < |Flush(k).0.snd_buf| ==>
              Flush(k).0.snd_buf[i].xmit >= 1 || (i < |k.snd_buf| && k.snd_buf[i].xmit == M - 1)
  {
    FlushLeaves(k);
    SentByNow(k, Flush(k).0, NewCount(k));
  }

  lemma SentByNow(k: Kcp, k': Kcp, n: nat)
    requires Left(k, k', n)
    ensures forall i :: 0 <= i < |k'.snd_buf| ==>
              k'.snd_buf[i].xmit >= 1 || (i < |k.snd_buf| && k.snd_buf[i].xmit == M - 1)
  {
    var b := |k.snd_buf|;
    forall i | 0 <= i < |k'.snd_buf|
      ensures k'.snd_buf[i].xmit >= 1 || (i < b && k.snd_buf[i].xmit == M - 1)
    {
      if i < b {
        assert Later(k, k.snd_buf[i], k'.snd_buf[i]);
      } else {
        assert Numbered(k, i - b, k'.snd_buf[i]);
        var t :| Fresh(k, i - b, t) && Later(k, t, k'.snd_buf[i]);
      }
    }
  }

  /** Pushed segments travel in the order of their numbers, each once. */
  ghost predicate Ascending(w: seq<Seg>, base: u32)
  {
    forall i, j :: 0 <= i < j < |w| && w[i].cmd == w[j].cmd == CMD_PUSH ==> Sub(w[i].sn, base) < Sub(w[j].sn, base)
  }

  lemma PushesInOrder(k: Kcp)
    requires Inv(k) && k.updated
    ensures Ascending(Wire(k), k.snd_una)
  {
    WireParts(k);
    ControlsFirst(k);
    ReadyKeeps(k);
    AfterControls(AllOnWire(AckSegs(k)) + AllOnWire(ProbeSegs(k)), ReadyToSend(k));
  }

  lemma AfterControls(c: seq<Seg>, k: Kcp)
    requires SendSide(k) && forall s :: s in c ==> s.cmd != CMD_PUSH
    ensures Ascending(c + AllOnWire(Pick(AllSent(k, k.snd_buf), AllGoing(k, k.snd_buf))), k.snd_una)
  {
    SentOrdered(k);
    AscendingAfter(c, Pick(AllSent(k, k.snd_buf), AllGoing(k, k.snd_buf)), k.snd_una, Sub(k.snd_nxt, k.snd_una));
  }

  lemma SentOrdered(k: Kcp)
    requires SendSide(k)
    ensures Ordered(Pick(AllSent(k, k.snd_buf), AllGoing(k, k.snd_buf)), k.snd_una, Sub(k.snd_nxt, k.snd_una))
  {
    var sent := AllSent(k, k.snd_buf);
    assert forall i :: 0 <= i < |sent| ==> sent[i].sn == k.snd_buf[i].sn;
    PickedOrdered(sent, AllGoing(k, k.snd_buf), k.snd_una, Sub(k.snd_nxt, k.snd_una));
  }

  lemma AscendingAfter(c: seq<Seg>, d: seq<Seg>, base: u32, limit: int)
    requires (forall i :: 0 <= i < |c| ==> c[i].cmd != CMD_PUSH) && Ordered(d, base, limit)
    ensures Ascending(c + AllOnWire(d), base)
  {
    var w := c + AllOnWire(d);
    forall i, j | 0 <= i < j < |w| && w[i].cmd == w[j].cmd == CMD_PUSH
      ensures Sub(w[i].sn, base) < Sub(w[j].sn, base)
    {
      assert w[i] == OnWire(d[i - |c|]) && w[j] == OnWire(d[j - |c|]);
    }
  }
}
