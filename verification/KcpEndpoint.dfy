/** The KCP control block and the functions of ikcp.c that update it in place, each proved to
    compute what KcpModel says. The C structure is held in one field, so kcp->f = e becomes
    kcp := kcp.(f := e); queues of segments are sequences. */
module KcpEndpoint {
  import opened U32
  import opened KcpWire
  import opened KcpModel
  import L = KcpLocal
  import opened Seqs

  /** ikcp_flush's buffer: hand the pending bytes over when the next item would not fit. */
  method Put(packets: seq<seq<byte>>, cur: seq<byte>, item: seq<byte>, mtu: int)
    returns (packets': seq<seq<byte>>, cur': seq<byte>)
    ensures Packing(packets', cur') == PackOne(Packing(packets, cur), item, mtu)
  {
    packets', cur' := packets, cur;
    if |cur'| + |item| > mtu {
      if |cur'| != 0 {
        packets' := packets' + [cur'];
      }
      cur' := [];
    }
    cur' := cur' + item;
  }

  /** The fragments still to be made. */
  ghost function Remaining(rest: seq<byte>, mss: int, stream: bool, more: bool): seq<Seg>
    requires mss > 0
  {
    if more then Fragments(rest, mss, stream) else []
  }

  lemma {:induction false} CutOne(rest: seq<byte>, mss: int, stream: bool, left: nat)
    requires mss > 0 && |Fragments(rest, mss, stream)| == left
    ensures var size := if |rest| > mss then mss else |rest|;
            var frg := if stream then 0 else Wrap(left - 1);
            var more := Remaining(rest[size..], mss, stream, left > 1);
            Fragments(rest, mss, stream) == [NewSeg(frg, rest[..size])] + more && |more| == left - 1
  {
    if |rest| <= mss {
      assert rest[..|rest|] == rest;
    }
  }

  class Ikcpcb {
    var kcp: Kcp

    constructor (conv: u32, mss: int, stream: bool, snd_wnd: u32, rcv_wnd: u32, ctl: Ctl)
      requires 0 < mss && mss + OVERHEAD < HALF && 0 < snd_wnd < HALF && 0 < rcv_wnd < HALF
      ensures kcp == Create(conv, mss, stream, snd_wnd, rcv_wnd, ctl) && L.Inv(kcp)
      ensures kcp.snd_una == kcp.snd_nxt == kcp.rcv_nxt == 0 && kcp.rmt_wnd == 128
      ensures kcp.interval == kcp.ts_flush == 100 && !kcp.updated && !kcp.askSend && !kcp.askTell && kcp.acklist == []
      ensures kcp.snd_queue == kcp.snd_buf == kcp.rcv_queue == kcp.rcv_buf == []
    {
      kcp := Create(conv, mss, stream, snd_wnd, rcv_wnd, ctl);
    }

    /** ikcp_send. */
    method Send(buffer: seq<byte>, len: int) returns (ret: int)
      requires len <= |buffer| && kcp.mss > 0
      modifies this
      ensures len < 0 ==> ret == -1 && kcp == old(kcp)
      ensures len >= 0 ==> (kcp, ret) == KcpModel.Send(old(kcp), buffer[..len])
      ensures old(L.Inv(kcp)) ==> L.Inv(kcp)
    {
      if len < 0 {
        return -1;
      }
      ghost var k := kcp;
      SendInv(k, buffer[..len]);
      var rest := FillLast(buffer[..len]);
      if kcp.stream && |rest| == 0 {
        return 0;
      }
      var count := FragCount(|rest|, kcp.mss);
      L.FragmentsCount(rest, kcp.mss, kcp.stream);
      if count >= WND_RCV {
        return -2;
      }
      Append(rest, count);
      ret := 0;
    }

    /** Its first part: stream mode appends to the last queued segment. */
    method FillLast(buffer: seq<byte>) returns (rest: seq<byte>)
      modifies this
      ensures kcp == Absorb(old(kcp), buffer) && rest == buffer[Extend(old(kcp), |buffer|)..]
    {
      rest := buffer;
      if kcp.stream && |kcp.snd_queue| != 0 && |kcp.snd_queue[|kcp.snd_queue| - 1].data| < kcp.mss {
        var last := kcp.snd_queue[|kcp.snd_queue| - 1];
        var extend := Min(|rest|, kcp.mss - |last.data|);
        kcp := kcp.(snd_queue := kcp.snd_queue[..|kcp.snd_queue| - 1] + [NewSeg(0, last.data + rest[..extend])]);
        rest := rest[extend..];
      }
    }

    /** Its fragmentation loop. */
    method Append(data: seq<byte>, count: nat)
      requires kcp.mss > 0 && count == |Fragments(data, kcp.mss, kcp.stream)| < WND_RCV
      modifies this
      ensures var segs := Fragments(data, old(kcp).mss, old(kcp).stream);
              kcp == old(kcp).(snd_queue := old(kcp).snd_queue + segs, nsnd_que := old(kcp).nsnd_que + |segs|)
    {
      var segs := Cut(data, kcp.mss, kcp.stream, count);
      kcp := kcp.(snd_queue := kcp.snd_queue + segs, nsnd_que := kcp.nsnd_que + |segs|);
    }

    static method Cut(data: seq<byte>, mss: int, stream: bool, count: nat) returns (segs: seq<Seg>)
      requires mss > 0 && count == |Fragments(data, mss, stream)| < WND_RCV
      ensures segs == Fragments(data, mss, stream)
    {
      var rest := data;
      segs := [];
      var i := 0;
      while i < count
        invariant 0 <= i == |segs| <= count
        invariant Fragments(data, mss, stream) == segs + Remaining(rest, mss, stream, i < count)
        invariant |Remaining(rest, mss, stream, i < count)| == count - i
      {
        var size := if |rest| > mss then mss else |rest|;
        var frg := if stream then 0 else Wrap(count - i - 1);
        CutOne(rest, mss, stream, count - i);
        Assoc(segs, [NewSeg(frg, rest[..size])], Remaining(rest[size..], mss, stream, i + 1 < count));
        segs := segs + [NewSeg(frg, rest[..size])];
        rest := rest[size..];
        i := i + 1;
      }
    }

    /** ikcp_peeksize. */
    method PeekSize() returns (size: int)
      ensures size == KcpModel.PeekSize(kcp)
    {
      var q := kcp.rcv_queue;
      if |q| == 0 {
        return -1;
      }
      if q[0].frg == 0 {
        return |q[0].data|;
      }
      if kcp.nrcv_que < Add(q[0].frg, 1) {
        return -1;
      }
      var rest := q;
      size := 0;
      while |rest| != 0
        invariant |FirstMessage(q)| == size + |FirstMessage(rest)|
        decreases |rest|
      {
        var seg := rest[0];
        size := size + |seg.data|;
        rest := rest[1..];
        if seg.frg == 0 {
          rest := [];
        }
      }
    }

    /** ikcp_recv: the merged message, removed from the queue unless len is negative. The size
        ikcp_peeksize announced is always the size merged, whatever the queue holds. */
    method Recv(len: int) returns (ret: int, data: seq<byte>)
      modifies this
      ensures (kcp, ret, data) == KcpModel.Recv(old(kcp), len)
      ensures old(L.Inv(kcp)) ==> L.Inv(kcp)
    {
      ghost var k := kcp;
      if L.Inv(k) { L.RecvKeeps(k, len); }
      if |kcp.rcv_queue| == 0 {
        return -1, [];
      }
      var room := if len < 0 then -len else len;
      var peeksize := PeekSize();
      if peeksize < 0 {
        return -2, [];
      }
      if peeksize > room {
        return -3, [];
      }
      var recover := kcp.nrcv_que >= kcp.rcv_wnd;
      data := Merge(len < 0);
      PeekIsSpan(k);
      assert |data| == peeksize;
      MoveAvailable();
      if kcp.nrcv_que < kcp.rcv_wnd && recover {
        kcp := kcp.(askTell := true);
      }
      MoveWindow(if len < 0 then k else k.(rcv_queue := k.rcv_queue[Span(k.rcv_queue)..],
          nrcv_que := k.nrcv_que - Span(k.rcv_queue)));
      ret := |data|;
    }

    /** The merging loop of ikcp_recv. */
    method Merge(peek: bool) returns (data: seq<byte>)
      modifies this
      ensures data == FirstMessage(old(kcp).rcv_queue)
      ensures kcp == Unlinked(old(kcp), if peek then -1 else 0)
    {
      data := [];
      var rest, n := kcp.rcv_queue, 0;
      ghost var q := kcp.rcv_queue;
      var done := false;
      while !done && |rest| != 0
        invariant kcp == old(kcp) && n <= |q| && rest == q[n..]
        invariant FirstMessage(q) == data + (if done then [] else FirstMessage(rest))
        invariant Span(q) == n + (if done then 0 else Span(rest))
        decreases |rest|
      {
        var seg := rest[0];
        Assoc(data, seg.data, FirstMessage(rest[1..]));
        data := data + seg.data;
        rest := rest[1..];
        n := n + 1;
        done := seg.frg == 0;
      }
      if !peek {
        kcp := kcp.(rcv_queue := rest, nrcv_que := kcp.nrcv_que - n);
      }
    }

    /** Moving in-order segments from rcv_buf to rcv_queue. */
    method MoveAvailable()
      modifies this
      ensures kcp == MoveReady(old(kcp))
    {
      while |kcp.rcv_buf| != 0 && kcp.rcv_buf[0].sn == kcp.rcv_nxt && kcp.nrcv_que < kcp.rcv_wnd
        invariant MoveReady(kcp) == MoveReady(old(kcp))
        decreases |kcp.rcv_buf|
      {
        var seg := kcp.rcv_buf[0];
        kcp := kcp.(rcv_buf := kcp.rcv_buf[1..], nrcv_buf := kcp.nrcv_buf - 1,
                    rcv_queue := kcp.rcv_queue + [seg], nrcv_que := kcp.nrcv_que + 1,
                    rcv_nxt := Add(kcp.rcv_nxt, 1));
      }
    }

    /** ikcp_shrink_buf. */
    method ShrinkBuf()
      modifies this
      ensures kcp == Shrink(old(kcp))
    {
      if |kcp.snd_buf| != 0 {
        kcp := kcp.(snd_una := kcp.snd_buf[0].sn);
      } else {
        kcp := kcp.(snd_una := kcp.snd_nxt);
      }
    }

    /** ikcp_parse_ack. */
    method ParseAck(sn: u32)
      modifies this
      ensures kcp == KcpModel.ParseAck(old(kcp), sn)
    {
      if Diff(sn, kcp.snd_una) < 0 || Diff(sn, kcp.snd_nxt) >= 0 {
        return;
      }
      var buf := kcp.snd_buf;
      var p := 0;
      while p < |buf|
        invariant 0 <= p <= |buf| && kcp == old(kcp)
        invariant FindSn(buf, sn) == (var r := FindSn(buf[p..], sn); if r == |buf| - p then |buf| else p + r)
      {
        assert buf[p..][0] == buf[p] && buf[p..][1..] == buf[p + 1..];
        if sn == buf[p].sn {
          kcp := kcp.(snd_buf := buf[..p] + buf[p + 1..], nsnd_buf := kcp.nsnd_buf - 1);
          return;
        }
        if Diff(sn, buf[p].sn) < 0 {
          break;
        }
        p := p + 1;
      }
    }

    /** ikcp_parse_una. */
    method ParseUna(una: u32)
      modifies this
      ensures kcp == KcpModel.ParseUna(old(kcp), una)
    {
      var buf, n := kcp.snd_buf, kcp.nsnd_buf;
      while |buf| != 0 && Diff(una, buf[0].sn) > 0
        invariant kcp == old(kcp) && n - |buf| == kcp.nsnd_buf - |kcp.snd_buf|
        invariant DropAcked(buf, una) == DropAcked(kcp.snd_buf, una)
        decreases |buf|
      {
        buf := buf[1..];
        n := n - 1;
      }
      kcp := kcp.(snd_buf := buf, nsnd_buf := n);
    }

    /** ikcp_parse_fastack. */
    method ParseFastack(sn: u32)
      modifies this
      ensures kcp == KcpModel.ParseFastack(old(kcp), sn)
    {
      if Diff(sn, kcp.snd_una) < 0 || Diff(sn, kcp.snd_nxt) >= 0 {
        return;
      }
      var buf := CountSkips(kcp.snd_buf, sn);
      kcp := kcp.(snd_buf := buf);
    }

    /** The loop of ikcp_parse_fastack. */
    static method CountSkips(buf: seq<Seg>, sn: u32) returns (r: seq<Seg>)
      ensures r == BumpSkipped(buf, sn)
    {
      r := [];
      var rest := buf;
      while |rest| != 0
        invariant BumpSkipped(buf, sn) == r + BumpSkipped(rest, sn)
        decreases |rest|
      {
        var s := rest[0];
        if Diff(sn, s.sn) < 0 {
          break;
        }
        if sn != s.sn {
          s := s.(fastack := Add(s.fastack, 1));
        }
        Assoc(r, [s], BumpSkipped(rest[1..], sn));
        r := r + [s];
        rest := rest[1..];
      }
      r := r + rest;
    }

    /** ikcp_parse_data: insert from the back, drop repeats, then drain. */
    method ParseData(newseg: Seg)
      modifies this
      ensures kcp == KcpModel.ParseData(old(kcp), newseg)
    {
      var sn := newseg.sn;
      if Diff(sn, Add(kcp.rcv_nxt, kcp.rcv_wnd)) >= 0 || Diff(sn, kcp.rcv_nxt) < 0 {
        return;
      }
      var buf := kcp.rcv_buf;
      var p := |buf|;
      var repeat := false;
      assert buf[..p] == buf;
      while p > 0
        invariant 0 <= p <= |buf| && !repeat && kcp == old(kcp)
        invariant PlaceFor(buf, sn) == PlaceFor(buf[..p], sn)
        decreases p
      {
        assert buf[..p][..p - 1] == buf[..p - 1];
        if buf[p - 1].sn == sn {
          repeat := true;
          break;
        }
        if Diff(sn, buf[p - 1].sn) > 0 {
          break;
        }
        p := p - 1;
      }
      if !repeat {
        assert PlaceFor(buf, sn) == At(p);
        kcp := kcp.(rcv_buf := buf[..p] + [newseg] + buf[p..], nrcv_buf := kcp.nrcv_buf + 1);
      }
      MoveAvailable();
    }

    /** What ikcp_input does with one decoded segment. */
    method HandleSeg(s: Seg)
      modifies this
      ensures kcp == ProcessSeg(old(kcp), s)
    {
      kcp := kcp.(rmt_wnd := s.wnd);
      ParseUna(s.una);
      ShrinkBuf();
      if s.cmd == CMD_ACK {
        if Diff(kcp.current, s.ts) >= 0 {
          kcp := kcp.(ctl := UpdateAck(kcp.ctl, kcp.interval, Diff(kcp.current, s.ts)));
        }
        ParseAck(s.sn);
        ShrinkBuf();
      } else if s.cmd == CMD_PUSH {
        if Diff(s.sn, Add(kcp.rcv_nxt, kcp.rcv_wnd)) < 0 {
          kcp := kcp.(acklist := kcp.acklist + [(s.sn, s.ts)]);
          if Diff(s.sn, kcp.rcv_nxt) >= 0 {
            ParseData(s);
          }
        }
      } else if s.cmd == CMD_WASK {
        kcp := kcp.(askTell := true);
      }
    }

    /** ikcp_input: decoding and acting are interleaved, segment by segment. */
    method Input(data: seq<byte>) returns (ret: int)
      requires kcp.mss > 0
      modifies this
      ensures (kcp, ret) == KcpModel.Input(old(kcp), data)
      ensures old(L.Inv(kcp)) ==> L.Inv(kcp)
    {
      ghost var k := kcp;
      if L.Inv(k) { L.InputKeeps(k, data); }
      if Signed(|data|) < OVERHEAD {
        return -1;
      }
      var prev_una := kcp.snd_una;
      var acks := NoAck;
      var rest := data;
      ghost var d := Decode(data, k.conv);
      while |rest| >= OVERHEAD
        invariant kcp.conv == k.conv && kcp.mss == k.mss
        invariant ProcessAll(kcp, Decode(rest, k.conv).segs) == ProcessAll(k, d.segs)
        invariant NoteAll(acks, Decode(rest, k.conv).segs) == NoteAll(NoAck, d.segs)
        invariant Decode(rest, k.conv).err == d.err
        decreases |rest|
      {
        var h := DecodeHeader(rest);
        var err := HeaderError(h, kcp.conv, |rest| - OVERHEAD);
        if err != 0 {
          return err;
        }
        var s := SegOf(h, rest[OVERHEAD..OVERHEAD + h.len]);
        ghost var now := Decode(rest, k.conv).segs;
        assert now[0] == s && now[1..] == Decode(rest[OVERHEAD + h.len..], k.conv).segs;
        SegConfig(kcp, s);
        HandleSeg(s);
        if s.cmd == CMD_ACK {
          acks := NoteAck(acks, s.sn);
        }
        rest := rest[OVERHEAD + h.len..];
      }
      assert kcp == ProcessAll(k, d.segs);
      if acks.Seen? {
        ParseFastack(acks.maxack);
      }
      if Diff(kcp.snd_una, prev_una) > 0 {
        kcp := kcp.(ctl := Grow(kcp.ctl, kcp.mss, kcp.rmt_wnd));
      }
      ret := 0;
    }

    /** The acknowledgements at the head of a flush; also the last sn and ts written. */
    method FlushAcks() returns (packets: seq<seq<byte>>, cur: seq<byte>, sn: u32, ts: u32)
      ensures Packing(packets, cur) == PackAll(Packing([], []), AckSegs(kcp), kcp.mtu)
      ensures (sn, ts) == if kcp.acklist == [] then (0, 0) else kcp.acklist[|kcp.acklist| - 1]
    {
      ghost var start := Packing([], []);
      packets, cur, sn, ts := [], [], 0, 0;
      var i := 0;
      while i < |kcp.acklist|
        invariant 0 <= i <= |kcp.acklist|
        invariant Packing(packets, cur) == PackAll(start, AckSegs(kcp)[..i], kcp.mtu)
        invariant (sn, ts) == if i == 0 then (0, 0) else kcp.acklist[i - 1]
      {
        sn, ts := kcp.acklist[i].0, kcp.acklist[i].1;
        PackAllSnoc(start, AckSegs(kcp), i, kcp.mtu);
        packets, cur := Put(packets, cur, EncodeSeg(ControlSeg(kcp, CMD_ACK, sn, ts)), kcp.mtu);
        i := i + 1;
      }
      assert AckSegs(kcp)[..|kcp.acklist|] == AckSegs(kcp);
    }

    /** Acknowledgements, probe timer and window probes. */
    method FlushControl() returns (packets: seq<seq<byte>>, cur: seq<byte>)
      modifies this
      ensures Packing(packets, cur) == PackAll(Packing([], []), AckSegs(old(kcp)) + ProbeSegs(old(kcp)), old(kcp).mtu)
      ensures kcp == Probed(old(kcp))
    {
      ghost var k := kcp;
      var sn, ts;
      packets, cur, sn, ts := FlushAcks();
      var due := ProbeDue(kcp);
      kcp := kcp.(ctl := ProbeTimer(kcp), acklist := []);
      if due {
        kcp := kcp.(askSend := true);
      }
      packets, cur := FlushProbes(packets, cur, sn, ts);
      ProbesSame(k, kcp, sn, ts);
      PackAllAppend(Packing([], []), AckSegs(k), ProbeSegs(k), k.mtu);
      kcp := kcp.(askSend := false, askTell := false);
    }

    /** The window probes. */
    method FlushProbes(packets0: seq<seq<byte>>, cur0: seq<byte>, sn: u32, ts: u32)
      returns (packets: seq<seq<byte>>, cur: seq<byte>)
      ensures Packing(packets, cur)
              == PackAll(Packing(packets0, cur0), ProbeList(kcp, kcp.askSend, kcp.askTell, sn, ts), kcp.mtu)
    {
      ghost var start := Packing(packets0, cur0);
      ghost var segs := [];
      packets, cur := packets0, cur0;
      if kcp.askSend {
        packets, cur := Put(packets, cur, EncodeSeg(ControlSeg(kcp, CMD_WASK, sn, ts)), kcp.mtu);
        PackAllOne(start, segs, ControlSeg(kcp, CMD_WASK, sn, ts), kcp.mtu);
        segs := segs + [ControlSeg(kcp, CMD_WASK, sn, ts)];
      }
      if kcp.askTell {
        packets, cur := Put(packets, cur, EncodeSeg(ControlSeg(kcp, CMD_WINS, sn, ts)), kcp.mtu);
        PackAllOne(start, segs, ControlSeg(kcp, CMD_WINS, sn, ts), kcp.mtu);
        segs := segs + [ControlSeg(kcp, CMD_WINS, sn, ts)];
      }
    }

    /** Moving segments from snd_queue to snd_buf within the window. */
    method AdmitQueued(cwnd: u32)
      modifies this
      ensures kcp == Admit(old(kcp), cwnd)
    {
      while Diff(kcp.snd_nxt, Add(kcp.snd_una, cwnd)) < 0 && |kcp.snd_queue| != 0
        invariant Admit(kcp, cwnd) == Admit(old(kcp), cwnd)
        decreases |kcp.snd_queue|
      {
        var newseg := kcp.snd_queue[0].(conv := kcp.conv, cmd := CMD_PUSH, wnd := Unused(kcp), ts := kcp.current,
                                        sn := kcp.snd_nxt, una := kcp.rcv_nxt, resendts := kcp.current,
                                        rto := kcp.ctl.rto, fastack := 0, xmit := 0);
        kcp := kcp.(snd_queue := kcp.snd_queue[1..], nsnd_que := kcp.nsnd_que - 1,
                    snd_buf := kcp.snd_buf + [newseg], nsnd_buf := kcp.nsnd_buf + 1, snd_nxt := Add(kcp.snd_nxt, 1));
      }
    }

    /** One segment of the transmission loop: send it or hold it. */
    static method SendOne(k: Kcp, s: Seg, packets0: seq<seq<byte>>, cur0: seq<byte>, fast0: nat, timeouts0: nat,
                          dead0: bool, ghost start: Packing, ghost w: Sweep)
      returns (packets: seq<seq<byte>>, cur: seq<byte>, segment: Seg, fast: nat, timeouts: nat, dead: bool)
      requires fast0 == w.fast && timeouts0 == w.timeouts && dead0 == w.dead
      requires Packing(packets0, cur0) == PackAll(start, w.out, k.mtu)
      ensures var w' := SweepOne(k, w, s);
              && segment == Transmit(k, s) && w'.buf == w.buf + [segment]
              && fast == w'.fast && timeouts == w'.timeouts && dead == w'.dead
              && Packing(packets, cur) == PackAll(start, w'.out, k.mtu)
    {
      packets, cur, segment, fast, timeouts, dead := packets0, cur0, s, fast0, timeouts0, dead0;
      var why := Why(k, s);
      if !why.Hold? {
        segment := Transmit(k, s);
        if why.Timeout? { timeouts := timeouts + 1; }
        if why.Fast? { fast := fast + 1; }
        packets, cur := Put(packets, cur, EncodeSeg(segment), k.mtu);
        PackAllOne(start, w.out, segment, k.mtu);
        if segment.xmit >= k.ctl.dead_link { dead := true; }
      }
    }

    /** The transmission loop of ikcp_flush. */
    method SendBuffered(packets0: seq<seq<byte>>, cur0: seq<byte>)
      returns (packets: seq<seq<byte>>, cur: seq<byte>, fast: nat, timeouts: nat, dead: bool)
      modifies this
      ensures var k := old(kcp); var w := SweepAll(k, k.snd_buf);
              && kcp == k.(snd_buf := w.buf) && fast == w.fast && timeouts == w.timeouts && dead == w.dead
              && Packing(packets, cur) == PackAll(Packing(packets0, cur0), w.out, k.mtu)
    {
      var k := kcp;
      ghost var start := Packing(packets0, cur0);
      packets, cur, fast, timeouts, dead := packets0, cur0, 0, 0, k.ctl.dead;
      var buf := k.snd_buf;
      var p := 0;
      var done := [];
      ghost var w := SweepAll(k, k.snd_buf[..0]);
      while p < |buf|
        invariant 0 <= p <= |buf| && kcp == k
        invariant w == SweepAll(k, buf[..p]) && done == w.buf
        invariant fast == w.fast && timeouts == w.timeouts && dead == w.dead
        invariant Packing(packets, cur) == PackAll(start, w.out, k.mtu)
      {
        var segment;
        SweepStep(k, p);
        packets, cur, segment, fast, timeouts, dead := SendOne(k, buf[p], packets, cur, fast, timeouts, dead, start, w);
        w := SweepOne(k, w, buf[p]);
        done := done + [segment];
        p := p + 1;
      }
      assert buf[..|buf|] == buf;
      kcp := kcp.(snd_buf := done);
    }

    /** ikcp_flush: the packets handed to the output callback, in order. */
    method Flush() returns (packets: seq<seq<byte>>)
      modifies this
      ensures (kcp, packets) == KcpModel.Flush(old(kcp))
      ensures old(L.Inv(kcp)) ==> L.Inv(kcp)
    {
      ghost var k := kcp;
      if L.Inv(k) { L.FlushKeeps(k); }
      if !kcp.updated {
        return [];
      }
      packets := FlushNow();
    }

    method FlushNow() returns (packets: seq<seq<byte>>)
      requires kcp.updated
      modifies this
      ensures (kcp, packets) == KcpModel.Flush(old(kcp))
    {
      ghost var k := kcp;
      var cwnd := EffectiveWnd(kcp);
      var cur;
      packets, cur := FlushControl();
      AdmitQueued(cwnd);
      ghost var k1 := kcp;
      assert k1 == ReadyToSend(k);
      AdmitConfig(Probed(k), cwnd);
      var fast, timeouts, dead;
      packets, cur, fast, timeouts, dead := SendBuffered(packets, cur);
      ghost var w := SweepAll(k1, k1.snd_buf);
      if |cur| > 0 {
        packets := packets + [cur];
      }
      AfterFlushed(cwnd, w, fast, timeouts, dead);
      FlushIs(k, k1, w);
    }

    /** Congestion control at the end of ikcp_flush. */
    method AfterFlushed(cwnd: u32, ghost w: Sweep, fast: nat, timeouts: nat, dead: bool)
      requires w.fast == fast && w.timeouts == timeouts && w.dead == dead
      modifies this
      ensures kcp == old(kcp).(ctl := AfterFlush(old(kcp), cwnd, w))
    {
      var c := kcp.ctl.(xmit := Wrap(kcp.ctl.xmit + timeouts), dead := dead);
      if fast != 0 {
        var inflight := Sub(kcp.snd_nxt, kcp.snd_una);
        var th := Wrap(Max(inflight / 2, THRESH_MIN));
        var cw := Add(th, Resent(c));
        c := c.(ssthresh := th, cwnd := cw, incr := Wrap(cw * kcp.mss));
      }
      if timeouts != 0 {
        c := c.(ssthresh := Wrap(Max(cwnd / 2, THRESH_MIN)), cwnd := 1, incr := Wrap(kcp.mss));
      }
      if c.cwnd < 1 {
        c := c.(cwnd := 1, incr := Wrap(kcp.mss));
      }
      kcp := kcp.(ctl := c);
    }

    /** ikcp_update. */
    method Update(now: u32) returns (packets: seq<seq<byte>>)
      modifies this
      ensures (kcp, packets) == KcpModel.Update(old(kcp), now)
      ensures old(L.Inv(kcp)) ==> L.Inv(kcp)
    {
      ghost var k := kcp;
      if L.Inv(k) { L.UpdateKeeps(k, now); }
      kcp := kcp.(current := now);
      if !kcp.updated {
        kcp := kcp.(updated := true, ts_flush := now);
      }
      var slap := Diff(now, kcp.ts_flush);
      if slap >= 10000 || slap < -10000 {
        kcp := kcp.(ts_flush := now);
        slap := 0;
      }
      packets := [];
      if slap >= 0 {
        kcp := kcp.(ts_flush := Add(kcp.ts_flush, kcp.interval));
        if Diff(now, kcp.ts_flush) >= 0 {
          kcp := kcp.(ts_flush := Add(now, kcp.interval));
        }
        assert kcp == Ticked(k, now);
        packets := Flush();
      }
    }
  }

  // ---- facts the loops above rest on ----

  /** The assertion at the end of ikcp_recv's merge: the size announced is the size merged. */
  lemma PeekIsSpan(k: Kcp)
    requires k.rcv_queue != [] && KcpModel.PeekSize(k) >= 0
    ensures KcpModel.PeekSize(k) == |FirstMessage(k.rcv_queue)|
  {
  }

  lemma SendInv(k: Kcp, m: seq<byte>)
    requires k.mss > 0
    ensures L.Inv(k) ==> L.Inv(KcpModel.Send(k, m).0)
  {
    if L.Inv(k) { L.SendKeeps(k, m); }
  }

  lemma {:induction false} MoveWindow(k: Kcp)
    ensures MoveReady(k).rcv_wnd == k.rcv_wnd && MoveReady(k).conv == k.conv && MoveReady(k).mss == k.mss
    decreases |k.rcv_buf|
  {
    if k.rcv_buf != [] && k.rcv_buf[0].sn == k.rcv_nxt && k.nrcv_que < k.rcv_wnd {
      MoveWindow(k.(rcv_buf := k.rcv_buf[1..], nrcv_buf := k.nrcv_buf - 1,
                    rcv_queue := k.rcv_queue + [k.rcv_buf[0]], nrcv_que := k.nrcv_que + 1,
                    rcv_nxt := Add(k.rcv_nxt, 1)));
    }
  }

  lemma ParseDataConfig(k: Kcp, s: Seg)
    ensures KcpModel.ParseData(k, s).conv == k.conv && KcpModel.ParseData(k, s).mss == k.mss
  {
    match PlaceFor(k.rcv_buf, s.sn)
    case Repeat => MoveWindow(k);
    case At(i) => MoveWindow(k.(rcv_buf := k.rcv_buf[..i] + [s] + k.rcv_buf[i..], nrcv_buf := k.nrcv_buf + 1));
  }

  lemma AckConfig(k: Kcp, s: Seg)
    ensures ProcessAck(k, s).conv == k.conv && ProcessAck(k, s).mss == k.mss
  {
  }

  lemma PushConfig(k: Kcp, s: Seg)
    ensures ProcessPush(k, s).conv == k.conv && ProcessPush(k, s).mss == k.mss
  {
    ParseDataConfig(k.(acklist := k.acklist + [(s.sn, s.ts)]), s);
  }

  lemma SegConfig(k: Kcp, s: Seg)
    ensures var k' := ProcessSeg(k, s); k'.conv == k.conv && k'.mss == k.mss
  {
    var k1 := Shrink(KcpModel.ParseUna(k.(rmt_wnd := s.wnd), s.una));
    AckConfig(k1, s);
    PushConfig(k1, s);
  }

  lemma {:induction false} AdmitConfig(k: Kcp, cwnd: u32)
    ensures Admit(k, cwnd).mtu == k.mtu
    decreases |k.snd_queue|
  {
    if Diff(k.snd_nxt, Add(k.snd_una, cwnd)) < 0 && k.snd_queue != [] {
      AdmitConfig(AdmitOne(k), cwnd);
    }
  }

  lemma {:induction false} FlushIs(k: Kcp, k1: Kcp, w: Sweep)
    requires k.updated && k1 == ReadyToSend(k) && w == SweepAll(k1, k1.snd_buf)
    ensures KcpModel.Flush(k).0 == k1.(snd_buf := w.buf, ctl := AfterFlush(k1.(snd_buf := w.buf), EffectiveWnd(k), w))
    ensures KcpModel.Flush(k).1
            == Close(PackAll(PackAll(Packing([], []), AckSegs(k) + ProbeSegs(k), k.mtu), w.out, k.mtu))
  {
    PackAllAppend(Packing([], []), AckSegs(k) + ProbeSegs(k), w.out, k.mtu);
    AfterFlushSame(k1, w.buf, EffectiveWnd(k), w);
  }

  lemma AfterFlushSame(k: Kcp, buf: seq<Seg>, cwnd: u32, w: Sweep)
    ensures AfterFlush(k.(snd_buf := buf), cwnd, w) == AfterFlush(k, cwnd, w)
  {
  }

  lemma ProbesSame(k: Kcp, k1: Kcp, sn: u32, ts: u32)
    requires k1 == k.(ctl := k1.ctl, acklist := k1.acklist, askSend := k1.askSend)
    ensures ProbeList(k1, k1.askSend, k1.askTell, sn, ts) == ProbeList(k, k1.askSend, k.askTell, sn, ts)
  {
  }

  lemma {:induction false} SweepStep(k: Kcp, p: nat)
    requires p < |k.snd_buf|
    ensures SweepAll(k, k.snd_buf[..p + 1]) == SweepOne(k, SweepAll(k, k.snd_buf[..p]), k.snd_buf[p])
  {
    assert k.snd_buf[..p + 1][..p] == k.snd_buf[..p];
  }

  lemma {:induction false} PackAllOne(p: Packing, segs: seq<Seg>, s: Seg, mtu: int)
    ensures PackAll(p, segs + [s], mtu) == PackOne(PackAll(p, segs, mtu), EncodeSeg(s), mtu)
  {
    PackAllAppend(p, segs, [s], mtu);
    var q := PackAll(p, segs, mtu);
    assert PackAll(q, [s], mtu) == PackAll(PackOne(q, EncodeSeg(s), mtu), [s][1..], mtu);
  }

  lemma {:induction false} PackAllSnoc(p: Packing, segs: seq<Seg>, i: nat, mtu: int)
    requires i < |segs|
    ensures PackAll(p, segs[..i + 1], mtu) == PackOne(PackAll(p, segs[..i], mtu), EncodeSeg(segs[i]), mtu)
  {
    PackAllOne(p, segs[..i], segs[i], mtu);
    assert segs[..i] + [segs[i]] == segs[..i + 1];
  }
}
