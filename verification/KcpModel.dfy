/** The state of one KCP endpoint and what each operation of ikcp.c does to it, as functions.
    The class in KcpEndpoint is proved to compute these; KcpLocal and KcpSystem prove what
    they guarantee. */
module KcpModel {
  import opened U32
  import opened KcpWire

  const WND_RCV: int := 128
  const RTO_MAX: int := 60000
  const THRESH_MIN: u32 := 2
  const PROBE_INIT: u32 := 7000
  const PROBE_LIMIT: u32 := 120000

  /** Retransmission timing, congestion window and window probing: these fields decide when a
      segment is (re)sent, never what is delivered. */
  datatype Ctl = Ctl(ssthresh: u32, cwnd: u32, incr: u32, srtt: int, rttval: int, rto: u32, minrto: u32,
                     nodelay: int, fastresend: int, fastlimit: int, nocwnd: bool,
                     ts_probe: u32, probe_wait: u32, xmit: u32, dead_link: u32, dead: bool)

  datatype Kcp = Kcp(conv: u32, mtu: int, mss: int, stream: bool, snd_wnd: u32, rcv_wnd: u32,
                     snd_una: u32, snd_nxt: u32, rcv_nxt: u32, rmt_wnd: u32,
                     askSend: bool, askTell: bool, updated: bool,
                     current: u32, interval: u32, ts_flush: u32,
                     nsnd_que: int, nsnd_buf: int, nrcv_que: int, nrcv_buf: int,
                     snd_queue: seq<Seg>, snd_buf: seq<Seg>, rcv_queue: seq<Seg>, rcv_buf: seq<Seg>,
                     acklist: seq<(u32, u32)>, ctl: Ctl)

  // ---- sending: fragmentation into snd_queue ----

  function NewSeg(frg: u32, data: seq<byte>): Seg
  {
    Seg(0, 0, frg, 0, 0, 0, 0, 0, 0, 0, 0, data)
  }

  /** ikcp_send's fragment count for a message of len bytes. */
  function FragCount(len: nat, mss: int): nat
    requires mss > 0
  {
    if len <= mss then 1 else (len + mss - 1) / mss
  }

  /** A message cut into pieces of mss bytes; frg counts down to 0 on the last piece. */
  function Fragments(buf: seq<byte>, mss: int, stream: bool): (r: seq<Seg>)
    requires mss > 0
    ensures |r| > 0
    decreases |buf|
  {
    if |buf| <= mss then [NewSeg(0, buf)]
    else
      var rest := Fragments(buf[mss..], mss, stream);
      [NewSeg(if stream then 0 else Wrap(|rest|), buf[..mss])] + rest
  }

  predicate CanExtend(k: Kcp)
  {
    k.stream && k.snd_queue != [] && |k.snd_queue[|k.snd_queue| - 1].data| < k.mss
  }

  /** How many bytes of a message stream mode appends to the last queued segment. */
  function Extend(k: Kcp, len: nat): nat
  {
    if CanExtend(k) then Min(len, k.mss - |k.snd_queue[|k.snd_queue| - 1].data|) else 0
  }

  function Absorb(k: Kcp, buf: seq<byte>): Kcp
  {
    if CanExtend(k) then
      var n := |k.snd_queue| - 1;
      k.(snd_queue := k.snd_queue[..n] + [NewSeg(0, k.snd_queue[n].data + buf[..Extend(k, |buf|)])])
    else k
  }

  /** ikcp_send: 0, or -2 when the message (or what stream mode leaves of it) needs as many
      fragments as a receive window holds. */
  function Send(k: Kcp, buf: seq<byte>): (Kcp, int)
    requires k.mss > 0
  {
    var k1 := Absorb(k, buf);
    var rest := buf[Extend(k, |buf|)..];
    var segs := Fragments(rest, k.mss, k.stream);
    if k.stream && rest == [] then (k1, 0)
    else if |segs| >= WND_RCV then (k1, -2)
    else
      (k1.(snd_queue := k1.snd_queue + segs, nsnd_que := k1.nsnd_que + |segs|), 0)
  }

  // ---- receiving: reassembly out of rcv_queue ----

  function Data(q: seq<Seg>): seq<byte>
  {
    if q == [] then [] else q[0].data + Data(q[1..])
  }

  /** How many segments the first message of the queue spans: up to the first frg 0. */
  function Span(q: seq<Seg>): (n: nat)
    ensures n <= |q|
    ensures q != [] ==> n > 0
  {
    if q == [] then 0 else if q[0].frg == 0 then 1 else 1 + Span(q[1..])
  }

  /** The merged data of the first message. */
  function FirstMessage(q: seq<Seg>): seq<byte>
  {
    if q == [] then [] else if q[0].frg == 0 then q[0].data else q[0].data + FirstMessage(q[1..])
  }

  function PeekSize(k: Kcp): int
  {
    if k.rcv_queue == [] then -1
    else if k.rcv_queue[0].frg == 0 then |k.rcv_queue[0].data|
    else if k.nrcv_que < Add(k.rcv_queue[0].frg, 1) then -1
    else |FirstMessage(k.rcv_queue)|
  }

  /** Move in-order segments from rcv_buf to rcv_queue while the queue has room. */
  function MoveReady(k: Kcp): Kcp
    decreases |k.rcv_buf|
  {
    if k.rcv_buf != [] && k.rcv_buf[0].sn == k.rcv_nxt && k.nrcv_que < k.rcv_wnd then
      MoveReady(k.(rcv_buf := k.rcv_buf[1..], nrcv_buf := k.nrcv_buf - 1,
                   rcv_queue := k.rcv_queue + [k.rcv_buf[0]], nrcv_que := k.nrcv_que + 1,
                   rcv_nxt := Add(k.rcv_nxt, 1)))
    else k
  }

  /** Whether ikcp_recv with room for |len| bytes finds a whole message that fits. */
  predicate RecvSucceeds(k: Kcp, len: int)
  {
    k.rcv_queue != [] && 0 <= PeekSize(k) <= (if len < 0 then -len else len)
  }

  /** The state after the message has been unlinked (not when peeking), before rcv_buf is drained. */
  function Unlinked(k: Kcp, len: int): Kcp
  {
    var n := Span(k.rcv_queue);
    if len < 0 then k else k.(rcv_queue := k.rcv_queue[n..], nrcv_que := k.nrcv_que - n)
  }

  /** Draining rcv_buf, and asking to tell the peer when the queue had been full. */
  function Refilled(k: Kcp, wasFull: bool): Kcp
  {
    var k1 := MoveReady(k);
    k1.(askTell := k1.askTell || (k1.nrcv_que < k1.rcv_wnd && wasFull))
  }

  /** ikcp_recv with a buffer of |len| bytes, peeking when len is negative. */
  function Recv(k: Kcp, len: int): (Kcp, int, seq<byte>)
  {
    if RecvSucceeds(k, len) then
      var data := FirstMessage(k.rcv_queue);
      (Refilled(Unlinked(k, len), k.nrcv_que >= k.rcv_wnd), |data|, data)
    else if k.rcv_queue == [] then (k, -1, [])
    else if PeekSize(k) < 0 then (k, -2, [])
    else (k, -3, [])
  }

  // ---- acknowledgements ----

  function DropAcked(buf: seq<Seg>, una: u32): seq<Seg>
  {
    if buf != [] && Diff(una, buf[0].sn) > 0 then DropAcked(buf[1..], una) else buf
  }

  function ParseUna(k: Kcp, una: u32): Kcp
  {
    var buf := DropAcked(k.snd_buf, una);
    k.(snd_buf := buf, nsnd_buf := k.nsnd_buf - (|k.snd_buf| - |buf|))
  }

  function Shrink(k: Kcp): Kcp
  {
    k.(snd_una := if k.snd_buf != [] then k.snd_buf[0].sn else k.snd_nxt)
  }

  /** Where the search for sn in an ordered buffer ends: its index, or |buf| when it is absent. */
  function FindSn(buf: seq<Seg>, sn: u32): (i: nat)
    ensures i <= |buf|
    ensures i < |buf| ==> buf[i].sn == sn
  {
    if buf == [] then 0
    else if buf[0].sn == sn then 0
    else if Diff(sn, buf[0].sn) < 0 then |buf|
    else 1 + FindSn(buf[1..], sn)
  }

  predicate AckInRange(k: Kcp, sn: u32)
  {
    Diff(sn, k.snd_una) >= 0 && Diff(sn, k.snd_nxt) < 0
  }

  function ParseAck(k: Kcp, sn: u32): Kcp
  {
    if !AckInRange(k, sn) then k
    else
      var i := FindSn(k.snd_buf, sn);
      if i == |k.snd_buf| then k
      else k.(snd_buf := k.snd_buf[..i] + k.snd_buf[i + 1..], nsnd_buf := k.nsnd_buf - 1)
  }

  /** Count one skip on each segment before sn (and on none from the first one after it). */
  function BumpSkipped(buf: seq<Seg>, sn: u32): seq<Seg>
  {
    if buf == [] || Diff(sn, buf[0].sn) < 0 then buf
    else
      [if buf[0].sn != sn then buf[0].(fastack := Add(buf[0].fastack, 1)) else buf[0]] + BumpSkipped(buf[1..], sn)
  }

  function ParseFastack(k: Kcp, sn: u32): Kcp
  {
    if !AckInRange(k, sn) then k else k.(snd_buf := BumpSkipped(k.snd_buf, sn))
  }

  /** RTT smoothing and the retransmission timeout derived from it. */
  function UpdateAck(c: Ctl, interval: u32, rtt: int): Ctl
    requires rtt >= 0
  {
    var delta := if rtt >= c.srtt then rtt - c.srtt else c.srtt - rtt;
    var rttval := if c.srtt == 0 then rtt / 2 else TruncDiv(3 * c.rttval + delta, 4);
    var srtt := if c.srtt == 0 then rtt else Max(TruncDiv(7 * c.srtt + rtt, 8), 1);
    var rto := Wrap(srtt + Max(interval, Wrap(4 * rttval)));
    c.(srtt := srtt, rttval := rttval, rto := Wrap(Min(Max(c.minrto, rto), RTO_MAX)))
  }

  // ---- incoming data ----

  /** Where a new segment goes in rcv_buf, searching from the back; None for a repeat. */
  datatype Place = Repeat | At(index: nat)

  function PlaceFor(buf: seq<Seg>, sn: u32): (p: Place)
    ensures p.At? ==> p.index <= |buf|
  {
    if buf == [] then At(0)
    else
      var last := buf[|buf| - 1];
      if last.sn == sn then Repeat
      else if Diff(sn, last.sn) > 0 then At(|buf|)
      else PlaceFor(buf[..|buf| - 1], sn)
  }

  predicate InWindow(k: Kcp, sn: u32)
  {
    Diff(sn, Add(k.rcv_nxt, k.rcv_wnd)) < 0 && Diff(sn, k.rcv_nxt) >= 0
  }

  function ParseData(k: Kcp, s: Seg): Kcp
  {
    if !InWindow(k, s.sn) then k
    else
      match PlaceFor(k.rcv_buf, s.sn)
      case Repeat => MoveReady(k)
      case At(i) => MoveReady(k.(rcv_buf := k.rcv_buf[..i] + [s] + k.rcv_buf[i..], nrcv_buf := k.nrcv_buf + 1))
  }

  /** The largest acknowledged sn of one ikcp_input call, for fast retransmission. */
  datatype Acks = NoAck | Seen(maxack: u32)

  function NoteAck(a: Acks, sn: u32): Acks
  {
    if a.NoAck? || Diff(sn, a.maxack) > 0 then Seen(sn) else a
  }

  function ProcessPush(k: Kcp, s: Seg): Kcp
  {
    if Diff(s.sn, Add(k.rcv_nxt, k.rcv_wnd)) >= 0 then k
    else
      var k1 := k.(acklist := k.acklist + [(s.sn, s.ts)]);
      if Diff(s.sn, k.rcv_nxt) >= 0 then ParseData(k1, s) else k1
  }

  function ProcessAck(k: Kcp, s: Seg): Kcp
  {
    var rtt := Diff(k.current, s.ts);
    var k1 := if rtt >= 0 then k.(ctl := UpdateAck(k.ctl, k.interval, rtt)) else k;
    Shrink(ParseAck(k1, s.sn))
  }

  /** What the loop of ikcp_input does with one decoded segment. */
  function ProcessSeg(k: Kcp, s: Seg): Kcp
  {
    var k1 := Shrink(ParseUna(k.(rmt_wnd := s.wnd), s.una));
    if s.cmd == CMD_ACK then ProcessAck(k1, s)
    else if s.cmd == CMD_PUSH then ProcessPush(k1, s)
    else if s.cmd == CMD_WASK then k1.(askTell := true)
    else k1
  }

  function ProcessAll(k: Kcp, segs: seq<Seg>): Kcp
    decreases |segs|
  {
    if segs == [] then k else ProcessAll(ProcessSeg(k, segs[0]), segs[1..])
  }

  function NoteAll(a: Acks, segs: seq<Seg>): Acks
    decreases |segs|
  {
    if segs == [] then a
    else NoteAll(if segs[0].cmd == CMD_ACK then NoteAck(a, segs[0].sn) else a, segs[1..])
  }

  /** The bytes of credit after one more acknowledgement above the threshold. */
  function Earned(incr: u32, mss: int): u32
    requires mss > 0
  {
    var incr0 := Max(incr, Wrap(mss));
    Wrap(incr0 + (if incr0 > 0 then Wrap(mss * mss) / incr0 else 0) + mss / 16)
  }

  /** Congestion-window growth when snd_una advanced. */
  function Grow(c: Ctl, mss: int, rmt_wnd: u32): Ctl
    requires mss > 0
  {
    if c.cwnd >= rmt_wnd then c
    else
      var c1 :=
        if c.cwnd < c.ssthresh then c.(cwnd := Add(c.cwnd, 1), incr := Wrap(c.incr + mss))
        else
          var incr := Earned(c.incr, mss);
          if Wrap((c.cwnd + 1) * mss) <= incr
          then c.(incr := incr, cwnd := Wrap(Wrap(incr + mss - 1) / mss))
          else c.(incr := incr);
      if c1.cwnd > rmt_wnd then c1.(cwnd := rmt_wnd, incr := Wrap(rmt_wnd * mss)) else c1
  }

  function AfterInput(k: Kcp, acks: Acks, prev_una: u32): Kcp
    requires k.mss > 0
  {
    var k1 := if acks.Seen? then ParseFastack(k, acks.maxack) else k;
    if Diff(k1.snd_una, prev_una) > 0 then k1.(ctl := Grow(k1.ctl, k1.mss, k1.rmt_wnd)) else k1
  }

  /** ikcp_input: decode, act on every segment reached, then fast-ack and window growth unless
      the decoding failed. The size is a long, but its first test is made on an int. */
  function Input(k: Kcp, b: seq<byte>): (Kcp, int)
    requires k.mss > 0
  {
    if Signed(|b|) < OVERHEAD then (k, -1)
    else
      var d := Decode(b, k.conv);
      var k1 := ProcessAll(k, d.segs);
      if d.err != 0 then (k1, d.err)
      else (if k1.mss > 0 then AfterInput(k1, NoteAll(NoAck, d.segs), k.snd_una) else k1, 0)
  }

  // ---- flushing ----

  function Unused(k: Kcp): u32
  {
    if k.nrcv_que < k.rcv_wnd then Wrap(k.rcv_wnd - k.nrcv_que) else 0
  }

  function ControlSeg(k: Kcp, cmd: u32, sn: u32, ts: u32): Seg
  {
    Seg(k.conv, cmd, 0, Unused(k), ts, sn, k.rcv_nxt, 0, 0, 0, 0, [])
  }

  function AckSegs(k: Kcp): (r: seq<Seg>)
    ensures |r| == |k.acklist|
    ensures forall i :: 0 <= i < |r| ==> r[i] == ControlSeg(k, CMD_ACK, k.acklist[i].0, k.acklist[i].1)
  {
    seq(|k.acklist|, i requires 0 <= i < |k.acklist| =>
      ControlSeg(k, CMD_ACK, k.acklist[i].0, k.acklist[i].1))
  }

  /** Window probing: while the peer advertises no room, ask again after a growing delay. */
  predicate ProbeDue(k: Kcp)
  {
    k.rmt_wnd == 0 && k.ctl.probe_wait != 0 && Diff(k.current, k.ctl.ts_probe) >= 0
  }

  function ProbeTimer(k: Kcp): Ctl
  {
    if k.rmt_wnd != 0 then k.ctl.(ts_probe := 0, probe_wait := 0)
    else if k.ctl.probe_wait == 0 then k.ctl.(probe_wait := PROBE_INIT, ts_probe := Add(k.current, PROBE_INIT))
    else if ProbeDue(k) then
      var w0 := Max(k.ctl.probe_wait, PROBE_INIT);
      var w := Wrap(Min(Wrap(w0 + w0 / 2), PROBE_LIMIT));
      k.ctl.(probe_wait := w, ts_probe := Add(k.current, w))
    else k.ctl
  }

  function ProbeList(k: Kcp, send: bool, tell: bool, sn: u32, ts: u32): seq<Seg>
  {
    (if send then [ControlSeg(k, CMD_WASK, sn, ts)] else [])
    + (if tell then [ControlSeg(k, CMD_WINS, sn, ts)] else [])
  }

  /** The probe segments reuse the header of the last ACK, its sn and ts included. */
  function ProbeSegs(k: Kcp): seq<Seg>
  {
    var (sn, ts) := if k.acklist == [] then (0, 0) else k.acklist[|k.acklist| - 1];
    ProbeList(k, k.askSend || ProbeDue(k), k.askTell, sn, ts)
  }

  function EffectiveWnd(k: Kcp): u32
  {
    var w := Wrap(Min(k.snd_wnd, k.rmt_wnd));
    if k.ctl.nocwnd then w else Wrap(Min(k.ctl.cwnd, w))
  }

  /** Number the first queued segment and move it to snd_buf. */
  function AdmitOne(k: Kcp): Kcp
    requires k.snd_queue != []
  {
    var s := k.snd_queue[0].(conv := k.conv, cmd := CMD_PUSH, wnd := Unused(k), ts := k.current, sn := k.snd_nxt,
                             una := k.rcv_nxt, resendts := k.current, rto := k.ctl.rto, fastack := 0, xmit := 0);
    k.(snd_queue := k.snd_queue[1..], nsnd_que := k.nsnd_que - 1,
       snd_buf := k.snd_buf + [s], nsnd_buf := k.nsnd_buf + 1, snd_nxt := Add(k.snd_nxt, 1))
  }

  function Admit(k: Kcp, cwnd: u32): Kcp
    decreases |k.snd_queue|
  {
    if Diff(k.snd_nxt, Add(k.snd_una, cwnd)) < 0 && k.snd_queue != [] then Admit(AdmitOne(k), cwnd) else k
  }

  datatype Reason = Hold | First | Timeout | Fast

  function Resent(c: Ctl): u32
  {
    if c.fastresend > 0 then Wrap(c.fastresend) else 0xffff_ffff
  }

  function Why(k: Kcp, s: Seg): Reason
  {
    if s.xmit == 0 then First
    else if Diff(k.current, s.resendts) >= 0 then Timeout
    else if s.fastack >= Resent(k.ctl) && (Signed(s.xmit) <= k.ctl.fastlimit || k.ctl.fastlimit <= 0) then Fast
    else Hold
  }

  function BackedOff(c: Ctl, rto: u32): u32
  {
    if c.nodelay == 0 then Wrap(rto + Max(rto, c.rto))
    else Wrap(rto + TruncDiv(if c.nodelay < 2 then Signed(rto) else Signed(c.rto), 2))
  }

  /** The segment after this flush considered it: timers advanced and header refreshed if sent. */
  function Transmit(k: Kcp, s: Seg): Seg
  {
    var s1 := s.(xmit := Add(s.xmit, 1), ts := k.current, wnd := Unused(k), una := k.rcv_nxt);
    match Why(k, s)
    case Hold => s
    case First =>
      var rtomin := if k.ctl.nodelay == 0 then k.ctl.rto / 8 else 0;
      s1.(rto := k.ctl.rto, resendts := Wrap(k.current + k.ctl.rto + rtomin))
    case Timeout =>
      var rto := BackedOff(k.ctl, s.rto);
      s1.(rto := rto, resendts := Add(k.current, rto))
    case Fast => s1.(fastack := 0, resendts := Add(k.current, s.rto))
  }

  /** The effect of the transmission loop over a prefix of snd_buf. */
  datatype Sweep = Sweep(buf: seq<Seg>, out: seq<Seg>, fast: nat, timeouts: nat, dead: bool)

  function SweepOne(k: Kcp, w: Sweep, s: Seg): Sweep
  {
    var r := Why(k, s);
    var s' := Transmit(k, s);
    Sweep(w.buf + [s'], if r.Hold? then w.out else w.out + [s'],
          if r.Fast? then w.fast + 1 else w.fast, if r.Timeout? then w.timeouts + 1 else w.timeouts,
          w.dead || (!r.Hold? && s'.xmit >= k.ctl.dead_link))
  }

  function SweepAll(k: Kcp, buf: seq<Seg>): Sweep
  {
    if buf == [] then Sweep([], [], 0, 0, k.ctl.dead)
    else SweepOne(k, SweepAll(k, buf[..|buf| - 1]), buf[|buf| - 1])
  }

  /** Slow-start threshold and congestion window after fast retransmissions and timeouts. */
  function AfterFlush(k: Kcp, cwnd: u32, w: Sweep): Ctl
  {
    var c0 := k.ctl.(xmit := Wrap(k.ctl.xmit + w.timeouts), dead := w.dead);
    var c1 :=
      if w.fast == 0 then c0
      else
        var th := Wrap(Max(Sub(k.snd_nxt, k.snd_una) / 2, THRESH_MIN));
        var cw := Add(th, Resent(c0));
        c0.(ssthresh := th, cwnd := cw, incr := Wrap(cw * k.mss));
    var c2 :=
      if w.timeouts == 0 then c1
      else c1.(ssthresh := Wrap(Max(cwnd / 2, THRESH_MIN)), cwnd := 1, incr := Wrap(k.mss));
    if c2.cwnd < 1 then c2.(cwnd := 1, incr := Wrap(k.mss)) else c2
  }

  /** The state after acknowledgements and probes have been written. */
  function Probed(k: Kcp): Kcp
  {
    k.(ctl := ProbeTimer(k), acklist := [], askSend := false, askTell := false)
  }

  /** The state with which the data loop of ikcp_flush starts. */
  function ReadyToSend(k: Kcp): Kcp
  {
    Admit(Probed(k), EffectiveWnd(k))
  }

  /** The segments one ikcp_flush puts on the wire, in order. */
  function FlushSegs(k: Kcp): seq<Seg>
  {
    var k1 := ReadyToSend(k);
    AckSegs(k) + ProbeSegs(k) + SweepAll(k1, k1.snd_buf).out
  }

  function Flush(k: Kcp): (Kcp, seq<seq<byte>>)
  {
    if !k.updated then (k, [])
    else
      var k1 := ReadyToSend(k);
      var w := SweepAll(k1, k1.snd_buf);
      (k1.(snd_buf := w.buf, ctl := AfterFlush(k1, EffectiveWnd(k), w)), Packets(FlushSegs(k), k.mtu))
  }

  /** The flush time ikcp_update counts from: corrected when the clock jumped by ten seconds. */
  function FlushBase(k: Kcp, now: u32): u32
  {
    var first := if k.updated then k.ts_flush else now;
    if Diff(now, first) >= 10000 || Diff(now, first) < -10000 then now else first
  }

  predicate Due(k: Kcp, now: u32) { Diff(now, FlushBase(k, now)) >= 0 }

  /** Time noted and, when a flush is due, the next one scheduled. */
  function Ticked(k: Kcp, now: u32): Kcp
  {
    var base := FlushBase(k, now);
    var next := Add(base, k.interval);
    k.(current := now, updated := true,
       ts_flush := if !Due(k, now) then base else if Diff(now, next) >= 0 then Add(now, k.interval) else next)
  }

  /** ikcp_update: flush when the interval has elapsed. */
  function Update(k: Kcp, now: u32): (Kcp, seq<seq<byte>>)
  {
    if Due(k, now) then Flush(Ticked(k, now)) else (Ticked(k, now), [])
  }

  /** ikcp_create, after ikcp_setmtu / ikcp_wndsize / ikcp_nodelay have fixed the configuration. */
  function Create(conv: u32, mss: int, stream: bool, snd_wnd: u32, rcv_wnd: u32, ctl: Ctl): Kcp
  {
    Kcp(conv, mss + OVERHEAD, mss, stream, snd_wnd, rcv_wnd, 0, 0, 0, 128, false, false, false, 0, 100, 100,
        0, 0, 0, 0, [], [], [], [], [], ctl)
  }
}
