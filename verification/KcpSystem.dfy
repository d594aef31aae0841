/** Two KCP endpoints over a network that may lose, duplicate, delay and reorder packets: what
    every run keeps, and what the applications on both sides are promised. */
module KcpSystem {
  import opened U32
  import opened KcpWire
  import opened KcpModel
  import opened KcpLocal
  import opened Seqs

  type Msg = seq<byte>

  /** What a sequence number stands for, wherever its segment happens to be. */
  datatype Frag = Frag(frg: u32, data: seq<byte>)

  function FragOf(s: Seg): Frag { Frag(s.frg, s.data) }

  function FragsOf(q: seq<Seg>): (r: seq<Frag>)
    ensures |r| == |q| && forall i :: 0 <= i < |q| ==> r[i] == FragOf(q[i])
  {
    seq(|q|, i requires 0 <= i < |q| => FragOf(q[i]))
  }

  function Bytes(fs: seq<Frag>): seq<byte>
  {
    if fs == [] then [] else fs[0].data + Bytes(fs[1..])
  }

  function MsgFrags(m: Msg, mss: int): seq<Frag>
    requires mss > 0
  {
    FragsOf(Fragments(m, mss, false))
  }

  function AllFrags(ms: seq<Msg>, mss: int): seq<Frag>
    requires mss > 0
  {
    if ms == [] then [] else AllFrags(ms[..|ms| - 1], mss) + MsgFrags(ms[|ms| - 1], mss)
  }

  /** One side: its endpoint, every packet it ever handed to the network, the fragment each
      sequence number was given (log[sn]), the messages its application sent successfully, the
      bytes that entered its send queue, and the messages its application received. */
  datatype Half = Half(k: Kcp, net: set<seq<byte>>, log: seq<Frag>, sent: seq<Msg>, taken: seq<byte>, rcvd: seq<Msg>)

  ghost predicate InBuf(buf: seq<Seg>, sn: int) { exists i :: 0 <= i < |buf| && buf[i].sn == sn }

  /** The receiver has the segment: delivered, queued for the application, or waiting in rcv_buf. */
  ghost predicate Held(k: Kcp, sn: int) { sn < k.rcv_nxt || InBuf(k.rcv_buf, sn) }

  function Delivered(k: Kcp): int { k.rcv_nxt - |k.rcv_queue| }

  /** What k holds of the peer's fragments is what the peer assigned. */
  ghost predicate RecvOk(k: Kcp, log: seq<Frag>)
  {
    && |k.rcv_queue| <= k.rcv_nxt <= |log| < HALF
    && (forall i :: 0 <= i < |k.rcv_queue| ==> FragOf(k.rcv_queue[i]) == log[Delivered(k) + i])
    && (forall s :: s in k.rcv_buf ==> s.sn < |log| && FragOf(s) == log[s.sn])
  }

  ghost predicate SendOk(k: Kcp, log: seq<Frag>)
  {
    && |log| == k.snd_nxt < HALF
    && (forall s :: s in k.snd_buf ==> s.sn < |log| && FragOf(s) == log[s.sn])
  }

  ghost predicate AcksOk(k: Kcp) { forall a :: a in k.acklist ==> a.0 < HALF && Held(k, a.0) }

  /** A segment its sender may stand by: its una and acks name only what the sender holds, its
      data only what the sender assigned. */
  ghost predicate Honest(s: Seg, k: Kcp, log: seq<Frag>)
  {
    && s.una <= k.rcv_nxt
    && (s.cmd == CMD_PUSH ==> s.sn < |log| && FragOf(s) == log[s.sn])
    && (s.cmd == CMD_ACK ==> s.sn < HALF && Held(k, s.sn))
  }

  ghost predicate HonestPacket(p: seq<byte>, k: Kcp, log: seq<Frag>)
  {
    forall s :: s in Decode(p, k.conv).segs ==> Honest(s, k, log)
  }

  ghost predicate Own(x: Half)
  {
    && Inv(x.k) && SendOk(x.k, x.log) && AcksOk(x.k)
    && (forall p :: p in x.net ==> HonestPacket(p, x.k, x.log))
  }

  /** No loss: a segment leaves the sender's buffer only when the receiver holds it. */
  ghost predicate NoLoss(x: Half, y: Half)
  {
    forall sn :: 0 <= sn < |x.log| ==> InBuf(x.k.snd_buf, sn) || Held(y.k, sn)
  }

  /** x's data in flight toward y. */
  ghost predicate Link(x: Half, y: Half) { RecvOk(y.k, x.log) && NoLoss(x, y) }

  // ---- what each endpoint operation does to these ----

  ghost predicate HeldGrows(k: Kcp, k': Kcp)
  {
    k.rcv_nxt <= k'.rcv_nxt && forall sn :: Held(k, sn) ==> Held(k', sn)
  }

  lemma HeldSame(k: Kcp, k': Kcp)
    requires k'.rcv_nxt == k.rcv_nxt && k'.rcv_buf == k.rcv_buf
    ensures HeldGrows(k, k')
  {
  }

  lemma HeldTrans(k: Kcp, k1: Kcp, k2: Kcp)
    requires HeldGrows(k, k1) && HeldGrows(k1, k2)
    ensures HeldGrows(k, k2)
  {
  }

  predicate CanMove(k: Kcp)
  {
    k.rcv_buf != [] && k.rcv_buf[0].sn == k.rcv_nxt && k.nrcv_que < k.rcv_wnd
  }

  function MoveOne(k: Kcp): Kcp
    requires k.rcv_buf != []
  {
    k.(rcv_buf := k.rcv_buf[1..], nrcv_buf := k.nrcv_buf - 1,
       rcv_queue := k.rcv_queue + [k.rcv_buf[0]], nrcv_que := k.nrcv_que + 1,
       rcv_nxt := Add(k.rcv_nxt, 1))
  }

  lemma MoveOneRecv(k: Kcp, log: seq<Frag>)
    requires RecvOk(k, log) && CanMove(k)
    ensures var k' := MoveOne(k);
            RecvOk(k', log) && Delivered(k') == Delivered(k) && HeldGrows(k, k') && k'.acklist == k.acklist
  {
    var k1 := MoveOne(k);
    assert k.rcv_buf[0] in k.rcv_buf;
    forall i | 1 <= i < |k.rcv_buf|
      ensures InBuf(k1.rcv_buf, k.rcv_buf[i].sn)
    {
      assert k1.rcv_buf[i - 1] == k.rcv_buf[i];
    }
  }

  lemma {:induction false} MoveReadyRecv(k: Kcp, log: seq<Frag>)
    requires RecvOk(k, log)
    ensures var k' := MoveReady(k);
            RecvOk(k', log) && Delivered(k') == Delivered(k) && HeldGrows(k, k') && k'.acklist == k.acklist
    decreases |k.rcv_buf|
  {
    if CanMove(k) {
      MoveOneRecv(k, log);
      MoveReadyRecv(MoveOne(k), log);
      HeldTrans(k, MoveOne(k), MoveReady(k));
    } else {
      HeldSame(k, k);
    }
  }

  lemma InsertRecv(k: Kcp, s: Seg, p: nat, log: seq<Frag>)
    requires RecvOk(k, log) && p <= |k.rcv_buf| && s.sn < |log| && FragOf(s) == log[s.sn]
    ensures var k' := k.(rcv_buf := k.rcv_buf[..p] + [s] + k.rcv_buf[p..], nrcv_buf := k.nrcv_buf + 1);
            RecvOk(k', log) && HeldGrows(k, k') && Held(k', s.sn)
  {
    var buf := k.rcv_buf[..p] + [s] + k.rcv_buf[p..];
    assert buf[p] == s;
    forall sn | InBuf(k.rcv_buf, sn)
      ensures InBuf(buf, sn)
    {
      var i :| 0 <= i < |k.rcv_buf| && k.rcv_buf[i].sn == sn;
      assert buf[if i < p then i else i + 1] == k.rcv_buf[i];
    }
  }

  lemma ParseDataRecv(k: Kcp, s: Seg, log: seq<Frag>)
    requires ConfigOk(k) && ReceiveSide(k) && RecvOk(k, log) && s.sn < |log| && FragOf(s) == log[s.sn]
    ensures var k' := ParseData(k, s);
            RecvOk(k', log) && Delivered(k') == Delivered(k) && HeldGrows(k, k') && k'.acklist == k.acklist
            && (InWindow(k, s.sn) ==> Held(k', s.sn))
  {
    if InWindow(k, s.sn) {
      WindowExact(k, s.sn);
      PlaceForCorrect(k.rcv_buf, s.sn, k.rcv_nxt, k.rcv_wnd);
      match PlaceFor(k.rcv_buf, s.sn)
      case Repeat =>
        MoveReadyRecv(k, log);
      case At(p) =>
        InsertRecv(k, s, p, log);
        MoveReadyRecv(k.(rcv_buf := k.rcv_buf[..p] + [s] + k.rcv_buf[p..], nrcv_buf := k.nrcv_buf + 1), log);
    }
  }

  /** A pushed segment is acknowledged only once it is held. */
  lemma ProcessPushRecv(k: Kcp, s: Seg, log: seq<Frag>)
    requires Inv(k) && AcksOk(k) && RecvOk(k, log) && s.sn < |log| && FragOf(s) == log[s.sn]
    ensures var k' := ProcessPush(k, s);
            RecvOk(k', log) && Delivered(k') == Delivered(k) && HeldGrows(k, k') && AcksOk(k')
            && k'.snd_buf == k.snd_buf
  {
    var k1 := k.(acklist := k.acklist + [(s.sn, s.ts)]);
    SideTransfer(k, k1);
    ParseDataRecv(k1, s, log);
    ParseDataKeeps(k1, s);
  }

  /** Segments missing from snd_buf afterwards were below una or are the one acknowledged. */
  ghost predicate OnlyAcked(buf: seq<Seg>, buf': seq<Seg>, una: int)
  {
    && (forall s :: s in buf' ==> s in buf)
    && (forall sn :: InBuf(buf, sn) && !InBuf(buf', sn) ==> sn < una)
  }

  lemma {:induction false} DropOnlyAcked(buf: seq<Seg>, una: u32)
    requires una <= HALF && forall s :: s in buf ==> s.sn < HALF
    ensures OnlyAcked(buf, DropAcked(buf, una), una)
  {
    var r := DropAcked(buf, una);
    var n := |buf| - |r|;
    DropIsSuffix(buf, una);
    forall j | 0 <= j < |buf|
      ensures if j < n then buf[j].sn < una else InBuf(r, buf[j].sn)
    {
      if j < n {
        assert buf[j] in buf;
      } else {
        assert r[j - n] == buf[j];
      }
    }
  }

  lemma RemoveOnlyAcked(buf: seq<Seg>, i: nat)
    requires i < |buf|
    ensures var buf' := buf[..i] + buf[i + 1..];
            (forall s :: s in buf' ==> s in buf)
            && (forall sn :: InBuf(buf, sn) && !InBuf(buf', sn) ==> sn == buf[i].sn)
  {
    var buf' := buf[..i] + buf[i + 1..];
    forall j | 0 <= j < |buf| && j != i
      ensures InBuf(buf', buf[j].sn)
    {
      assert buf'[if j < i then j else j - 1] == buf[j];
    }
  }

  /** What processing an honest segment keeps, seen from the processing endpoint. */
  ghost predicate Absorbs(k: Kcp, k': Kcp, y: Half)
  {
    && (forall s :: s in k'.snd_buf ==> s in k.snd_buf)
    && (forall sn :: InBuf(k.snd_buf, sn) && !InBuf(k'.snd_buf, sn) ==> Held(y.k, sn))
    && RecvOk(k', y.log) && Delivered(k') == Delivered(k) && HeldGrows(k, k') && AcksOk(k')
  }

  lemma HeaderAbsorbs(k: Kcp, wnd: u32, una: u32, y: Half, log: seq<Frag>)
    requires Inv(k) && SendOk(k, log) && AcksOk(k) && RecvOk(k, y.log) && una <= y.k.rcv_nxt < HALF
    ensures Absorbs(k, Shrink(ParseUna(k.(rmt_wnd := wnd), una)), y)
  {
    DropOnlyAcked(k.snd_buf, una);
  }

  lemma AckAbsorbs(k: Kcp, s: Seg, y: Half)
    requires AcksOk(k) && RecvOk(k, y.log) && Held(y.k, s.sn)
    ensures Absorbs(k, ProcessAck(k, s), y)
  {
    var rtt := Diff(k.current, s.ts);
    var k1 := if rtt >= 0 then k.(ctl := UpdateAck(k.ctl, k.interval, rtt)) else k;
    ParseAckAbsorbs(k1, s.sn, y);
  }

  lemma ParseAckAbsorbs(k: Kcp, sn: u32, y: Half)
    requires AcksOk(k) && RecvOk(k, y.log) && Held(y.k, sn)
    ensures Absorbs(k, Shrink(ParseAck(k, sn)), y)
  {
    var i := FindSn(k.snd_buf, sn);
    if i < |k.snd_buf| {
      RemoveOnlyAcked(k.snd_buf, i);
    }
  }

  lemma AbsorbsTrans(k: Kcp, k1: Kcp, k2: Kcp, y: Half)
    requires Absorbs(k, k1, y) && Absorbs(k1, k2, y)
    ensures Absorbs(k, k2, y)
  {
  }

  lemma PushAbsorbs(k: Kcp, s: Seg, y: Half)
    requires Inv(k) && AcksOk(k) && RecvOk(k, y.log) && s.sn < |y.log| && FragOf(s) == y.log[s.sn]
    ensures Absorbs(k, ProcessPush(k, s), y)
  {
    ProcessPushRecv(k, s, y.log);
  }

  lemma ProcessSegAbsorbs(k: Kcp, s: Seg, y: Half, log: seq<Frag>)
    requires Inv(k) && SendOk(k, log) && AcksOk(k) && RecvOk(k, y.log) && y.k.rcv_nxt < HALF
    requires Honest(s, y.k, y.log)
    ensures Absorbs(k, ProcessSeg(k, s), y)
  {
    var k1 := Shrink(ParseUna(k.(rmt_wnd := s.wnd), s.una));
    HeaderKeeps(k, s.wnd, s.una);
    HeaderAbsorbs(k, s.wnd, s.una, y, log);
    if s.cmd == CMD_ACK {
      AckAbsorbs(k1, s, y);
      AbsorbsTrans(k, k1, ProcessAck(k1, s), y);
    } else if s.cmd == CMD_PUSH {
      PushAbsorbs(k1, s, y);
      AbsorbsTrans(k, k1, ProcessPush(k1, s), y);
    } else if s.cmd == CMD_WASK {
      TellAbsorbs(k, k1, y);
    }
  }

  lemma TellAbsorbs(k: Kcp, k1: Kcp, y: Half)
    requires Absorbs(k, k1, y)
    ensures Absorbs(k, k1.(askTell := true), y)
  {
  }

  lemma {:induction false} ProcessAllAbsorbs(k: Kcp, segs: seq<Seg>, y: Half, log: seq<Frag>)
    requires Inv(k) && SendOk(k, log) && AcksOk(k) && RecvOk(k, y.log) && y.k.rcv_nxt < HALF
    requires forall s :: s in segs ==> Honest(s, y.k, y.log)
    ensures Absorbs(k, ProcessAll(k, segs), y) && SendOk(ProcessAll(k, segs), log)
    decreases |segs|
  {
    if segs == [] {
    } else {
      var k1 := ProcessSeg(k, segs[0]);
      ProcessSegKeeps(k, segs[0]);
      ProcessSegAbsorbs(k, segs[0], y, log);
      ProcessAllAbsorbs(k1, segs[1..], y, log);
      AbsorbsTrans(k, k1, ProcessAll(k, segs), y);
    }
  }

  lemma FastackSendOk(k: Kcp, sn: u32, log: seq<Frag>)
    requires SendOk(k, log)
    ensures SendOk(ParseFastack(k, sn), log)
    ensures forall n :: InBuf(k.snd_buf, n) ==> InBuf(ParseFastack(k, sn).snd_buf, n)
  {
    BumpShape(k.snd_buf, sn);
    SameNumbers(k.snd_buf, BumpSkipped(k.snd_buf, sn), log);
  }

  /** Rewriting the bookkeeping of a buffered segment changes neither its number nor its content. */
  lemma SameNumbers(buf: seq<Seg>, buf': seq<Seg>, log: seq<Frag>)
    requires |buf'| == |buf|
    requires forall i :: 0 <= i < |buf| ==> buf'[i].sn == buf[i].sn && FragOf(buf'[i]) == FragOf(buf[i])
    ensures forall n :: InBuf(buf, n) ==> InBuf(buf', n)
    ensures (forall s :: s in buf ==> s.sn < |log| && FragOf(s) == log[s.sn])
            ==> (forall s :: s in buf' ==> s.sn < |log| && FragOf(s) == log[s.sn])
  {
    forall n | InBuf(buf, n)
      ensures InBuf(buf', n)
    {
      var i :| 0 <= i < |buf| && buf[i].sn == n;
      assert buf'[i].sn == n;
    }
    if forall s :: s in buf ==> s.sn < |log| && FragOf(s) == log[s.sn] {
      forall s | s in buf'
        ensures s.sn < |log| && FragOf(s) == log[s.sn]
      {
        var i :| 0 <= i < |buf'| && buf'[i] == s;
        assert buf[i] in buf;
      }
    }
  }

  /** Packets a side has emitted stay honest as it learns more and assigns more. */
  lemma PacketsStay(x: Half, k': Kcp, log': seq<Frag>)
    requires forall p :: p in x.net ==> HonestPacket(p, x.k, x.log)
    requires k'.conv == x.k.conv && HeldGrows(x.k, k') && x.log <= log'
    ensures forall p :: p in x.net ==> HonestPacket(p, k', log')
  {
    forall p | p in x.net
      ensures HonestPacket(p, k', log')
    {
      assert HonestPacket(p, x.k, x.log);
    }
  }

  lemma AfterInputAbsorbs(k: Kcp, acks: Acks, una: u32, log: seq<Frag>)
    requires Inv(k) && SendOk(k, log)
    ensures SendOk(AfterInput(k, acks, una), log)
    ensures AfterInput(k, acks, una).acklist == k.acklist
    ensures forall n :: InBuf(k.snd_buf, n) ==> InBuf(AfterInput(k, acks, una).snd_buf, n)
  {
    if acks.Seen? { FastackSendOk(k, acks.maxack, log); }
  }

  /** What one packet changes at the endpoint that receives it. */
  ghost predicate Took(k: Kcp, k': Kcp, y: Half, log: seq<Frag>)
  {
    && (forall sn :: InBuf(k.snd_buf, sn) && !InBuf(k'.snd_buf, sn) ==> Held(y.k, sn))
    && RecvOk(k', y.log) && Delivered(k') == Delivered(k) && HeldGrows(k, k') && AcksOk(k') && SendOk(k', log)
  }

  lemma AbsorbsTook(k: Kcp, k1: Kcp, k2: Kcp, y: Half, log: seq<Frag>)
    requires Absorbs(k, k1, y) && SendOk(k2, log) && SameReceive(k1, k2) && k2.acklist == k1.acklist
    requires forall n :: InBuf(k1.snd_buf, n) ==> InBuf(k2.snd_buf, n)
    ensures Took(k, k2, y, log)
  {
    HeldSame(k1, k2);
    HeldTrans(k, k1, k2);
    forall sn | InBuf(k.snd_buf, sn) && !InBuf(k2.snd_buf, sn)
      ensures Held(y.k, sn)
    {
      assert !InBuf(k1.snd_buf, sn);
    }
  }

  lemma {:induction false} InputTook(k: Kcp, p: seq<byte>, y: Half, log: seq<Frag>)
    requires Inv(k) && SendOk(k, log) && AcksOk(k) && RecvOk(k, y.log) && y.k.rcv_nxt < HALF
    requires forall s :: s in Decode(p, k.conv).segs ==> Honest(s, y.k, y.log)
    ensures Took(k, Input(k, p).0, y, log)
  {
    if Signed(|p|) >= OVERHEAD {
      var d := Decode(p, k.conv);
      var k1 := ProcessAll(k, d.segs);
      ProcessAllKeeps(k, d.segs);
      ProcessAllAbsorbs(k, d.segs, y, log);
      var k2 := Input(k, p).0;
      if d.err == 0 {
        var acks := NoteAll(NoAck, d.segs);
        AfterInputKeeps(k1, acks, k.snd_una);
        AfterInputAbsorbs(k1, acks, k.snd_una, log);
      }
      AbsorbsTook(k, k1, k2, y, log);
    }
  }

  /** Delivering any packet the peer ever sent, however late or often. */
  lemma DeliverKeeps(x: Half, y: Half, p: seq<byte>)
    requires Own(x) && Own(y) && Link(x, y) && Link(y, x) && x.k.conv == y.k.conv && p in y.net
    ensures var x' := x.(k := Input(x.k, p).0);
            Own(x') && Link(x', y) && Link(y, x') && SameConfig(x.k, x'.k)
            && Delivered(x'.k) == Delivered(x.k) && x'.k.snd_queue == x.k.snd_queue
  {
    var k' := Input(x.k, p).0;
    assert HonestPacket(p, y.k, y.log);
    InputKeeps(x.k, p);
    InputTook(x.k, p, y, x.log);
    PacketsStay(x, k', x.log);
    var x' := x.(k := k');
    forall sn | 0 <= sn < |x.log|
      ensures InBuf(k'.snd_buf, sn) || Held(y.k, sn)
    {
    }
    forall sn | 0 <= sn < |y.log|
      ensures InBuf(y.k.snd_buf, sn) || Held(k', sn)
    {
    }
  }

  // ---- the applications ----

  lemma {:induction false} BytesAppend(a: seq<Frag>, b: seq<Frag>)
    ensures Bytes(a + b) == Bytes(a) + Bytes(b)
  {
    if a == [] {
      assert a + b == b;
    } else {
      assert (a + b)[1..] == a[1..] + b;
      BytesAppend(a[1..], b);
    }
  }

  lemma {:induction false} DataBytes(q: seq<Seg>)
    ensures Data(q) == Bytes(FragsOf(q))
  {
    if q == [] {
    } else {
      DataBytes(q[1..]);
      assert FragsOf(q)[1..] == FragsOf(q[1..]);
    }
  }

  lemma FragsAppend(a: seq<Seg>, b: seq<Seg>)
    ensures FragsOf(a + b) == FragsOf(a) + FragsOf(b)
  {
  }

  lemma {:induction false} FragmentsData(m: Msg, mss: int, stream: bool)
    requires mss > 0
    ensures Data(Fragments(m, mss, stream)) == m
    decreases |m|
  {
    if |m| <= mss {
      assert Data([NewSeg(0, m)]) == m + Data([]);
    } else {
      FragmentsData(m[mss..], mss, stream);
      assert m == m[..mss] + m[mss..];
      assert Fragments(m, mss, stream)[1..] == Fragments(m[mss..], mss, stream);
    }
  }

  /** A message's fragments count down to 0, so they can be told apart from the next message's. */
  lemma {:induction false} FragmentsCountDown(m: Msg, mss: int)
    requires mss > 0 && |MsgFrags(m, mss)| < WND_RCV
    ensures var r := Fragments(m, mss, false);
            forall i :: 0 <= i < |r| ==> r[i].frg == |r| - 1 - i
    decreases |m|
  {
    if |m| > mss {
      FragmentsCountDown(m[mss..], mss);
      assert Fragments(m, mss, false)[1..] == Fragments(m[mss..], mss, false);
    }
  }

  /** Everything x ever queued for sending, in order: numbered segments first. */
  function Queued(x: Half): seq<Frag> { x.log + FragsOf(x.k.snd_queue) }

  /** Byte-level history, in both modes: the queue holds exactly the bytes taken from the
      application, and the peer's application has received a prefix of them. */
  ghost predicate BytesOk(x: Half, y: Half)
  {
    && Bytes(Queued(x)) == x.taken
    && 0 <= Delivered(y.k) <= |x.log|
    && Bytes(x.log[..Delivered(y.k)]) == Concat(y.rcvd)
  }

  /** Message-level history, in message mode. */
  ghost predicate MsgsOk(x: Half, y: Half)
  {
    && x.k.mss > 0
    && (forall i :: 0 <= i < |x.sent| ==> |MsgFrags(x.sent[i], x.k.mss)| < WND_RCV)
    && Queued(x) == AllFrags(x.sent, x.k.mss)
    && y.rcvd <= x.sent
    && |AllFrags(y.rcvd, x.k.mss)| == Delivered(y.k)
  }

  /** The bytes of m that ikcp_send puts in the queue: all on success, and on failure those that
      stream mode had already appended to the last queued segment. */
  function Taken(k: Kcp, m: Msg): nat
    requires k.mss > 0
    ensures Taken(k, m) <= |m|
  {
    if Send(k, m).1 == 0 then |m| else Extend(k, |m|)
  }

  function DoSend(x: Half, m: Msg): Half
    requires x.k.mss > 0
  {
    var (k', ret) := Send(x.k, m);
    x.(k := k', sent := if ret == 0 then x.sent + [m] else x.sent, taken := x.taken + m[..Taken(x.k, m)])
  }

  lemma AbsorbBytes(k: Kcp, m: Msg)
    ensures Bytes(FragsOf(Absorb(k, m).snd_queue)) == Bytes(FragsOf(k.snd_queue)) + m[..Extend(k, |m|)]
  {
    if CanExtend(k) {
      var n := |k.snd_queue| - 1;
      var ext := m[..Extend(k, |m|)];
      var init := FragsOf(k.snd_queue[..n]);
      var last := FragOf(k.snd_queue[n]);
      assert FragsOf(k.snd_queue) == init + [last];
      assert FragsOf(Absorb(k, m).snd_queue) == init + [Frag(0, last.data + ext)];
      BytesAppend(init, [last]);
      BytesAppend(init, [Frag(0, last.data + ext)]);
      assert Bytes([last]) == last.data + Bytes([]);
      assert Bytes([Frag(0, last.data + ext)]) == last.data + ext + Bytes([]);
    }
  }

  lemma {:induction false} FragmentBytes(q: seq<Seg>, m: Msg, mss: int, stream: bool)
    requires mss > 0
    ensures Bytes(FragsOf(q + Fragments(m, mss, stream))) == Bytes(FragsOf(q)) + m
  {
    var segs := Fragments(m, mss, stream);
    FragmentsData(m, mss, stream);
    DataBytes(segs);
    FragsAppend(q, segs);
    BytesAppend(FragsOf(q), FragsOf(segs));
  }

  lemma SendQueue(k: Kcp, m: Msg)
    requires k.mss > 0
    ensures var rest := m[Extend(k, |m|)..];
            Send(k, m).0.snd_queue == Absorb(k, m).snd_queue
              + (if Send(k, m).1 != 0 || (k.stream && rest == []) then [] else Fragments(rest, k.mss, k.stream))
  {
  }

  lemma SendBytes(k: Kcp, m: Msg)
    requires k.mss > 0
    ensures Bytes(FragsOf(Send(k, m).0.snd_queue)) == Bytes(FragsOf(k.snd_queue)) + m[..Taken(k, m)]
  {
    AbsorbBytes(k, m);
    SendQueue(k, m);
    var e := Extend(k, |m|);
    assert m[..e] + m[e..] == m && m[..|m|] == m;
    FragmentBytes(Absorb(k, m).snd_queue, m[e..], k.mss, k.stream);
  }

  lemma SendBytesOk(x: Half, y: Half, m: Msg)
    requires Inv(x.k) && BytesOk(x, y)
    ensures BytesOk(DoSend(x, m), y)
  {
    QueuedGrows(x, m);
    assert DoSend(x, m).taken == x.taken + m[..Taken(x.k, m)];
  }

  lemma QueuedGrows(x: Half, m: Msg)
    requires x.k.mss > 0
    ensures Bytes(Queued(DoSend(x, m))) == Bytes(Queued(x)) + m[..Taken(x.k, m)]
  {
    SendBytes(x.k, m);
    BytesAppend(x.log, FragsOf(x.k.snd_queue));
    BytesAppend(x.log, FragsOf(Send(x.k, m).0.snd_queue));
  }

  /** In message mode a message is queued whole or refused with nothing changed. */
  lemma {:induction false} SendWhole(k: Kcp, m: Msg)
    requires k.mss > 0 && !k.stream
    ensures |MsgFrags(m, k.mss)| >= WND_RCV ==> Send(k, m) == (k, -2)
    ensures |MsgFrags(m, k.mss)| < WND_RCV ==>
              Send(k, m).1 == 0 && Send(k, m).0.snd_queue == k.snd_queue + Fragments(m, k.mss, false)
              && Send(k, m).0.mss == k.mss
  {
    assert m[0..] == m;
  }

  lemma SendMsgsOk(x: Half, y: Half, m: Msg)
    requires MsgsOk(x, y) && !x.k.stream
    ensures MsgsOk(DoSend(x, m), y)
  {
    SendWhole(x.k, m);
    if |MsgFrags(m, x.k.mss)| < WND_RCV {
      MsgsExtend(x, DoSend(x, m), y, m);
    }
  }

  lemma {:induction false} MsgsExtend(x: Half, x': Half, y: Half, m: Msg)
    requires MsgsOk(x, y) && x'.log == x.log && x'.k.mss == x.k.mss && |MsgFrags(m, x.k.mss)| < WND_RCV
    requires x'.k.snd_queue == x.k.snd_queue + Fragments(m, x.k.mss, false) && x'.sent == x.sent + [m]
    ensures MsgsOk(x', y)
  {
    AllFragsSnoc(x.sent, m, x.k.mss);
    QueuedMore(x.log, x.k.snd_queue, Fragments(m, x.k.mss, false));
  }

  lemma QueuedMore(log: seq<Frag>, q: seq<Seg>, more: seq<Seg>)
    ensures log + FragsOf(q + more) == log + FragsOf(q) + FragsOf(more)
  {
  }

  lemma {:induction false} AllFragsSnoc(ms: seq<Msg>, m: Msg, mss: int)
    requires mss > 0
    ensures AllFrags(ms + [m], mss) == AllFrags(ms, mss) + MsgFrags(m, mss)
  {
    assert (ms + [m])[..|ms|] == ms;
  }

  lemma SendStepKeeps(x: Half, y: Half, m: Msg)
    requires Own(x) && Own(y) && Link(x, y) && Link(y, x)
    ensures var x' := DoSend(x, m);
            Own(x') && Link(x', y) && Link(y, x') && SameConfig(x.k, x'.k)
  {
    SendKeeps(x.k, m);
    var x' := DoSend(x, m);
    assert x'.k.acklist == x.k.acklist;
    PacketsStay(x, x'.k, x.log);
  }

  /** ikcp_recv: a nonnegative len takes the message, a negative one only looks at it. */
  function DoRecv(x: Half, len: int): Half
  {
    var (k', ret, data) := Recv(x.k, len);
    x.(k := k', rcvd := if ret >= 0 && len >= 0 then x.rcvd + [data] else x.rcvd)
  }

  lemma AcksGrow(k: Kcp, k': Kcp)
    requires AcksOk(k) && HeldGrows(k, k') && k'.acklist == k.acklist
    ensures AcksOk(k')
  {
  }

  lemma UnlinkedEffect(k: Kcp, len: int, log: seq<Frag>)
    requires RecvOk(k, log)
    ensures var k' := Unlinked(k, len);
            RecvOk(k', log) && HeldGrows(k, k') && k'.acklist == k.acklist
            && Delivered(k') == Delivered(k) + (if len >= 0 then Span(k.rcv_queue) else 0)
  {
    HeldSame(k, Unlinked(k, len));
  }

  lemma RecvEffect(k: Kcp, len: int, log: seq<Frag>)
    requires RecvOk(k, log) && AcksOk(k)
    ensures var k' := Recv(k, len).0;
            RecvOk(k', log) && HeldGrows(k, k') && AcksOk(k')
            && Delivered(k') == Delivered(k) + (if RecvSucceeds(k, len) && len >= 0 then Span(k.rcv_queue) else 0)
  {
    if RecvSucceeds(k, len) {
      var k1 := Unlinked(k, len);
      UnlinkedEffect(k, len, log);
      var k2 := MoveReady(k1);
      MoveReadyRecv(k1, log);
      HeldTrans(k, k1, k2);
      AcksGrow(k, k2);
      TellSame(k2, Recv(k, len).0.askTell, log);
      HeldTrans(k, k2, Recv(k, len).0);
    }
  }

  lemma TellSame(k: Kcp, tell: bool, log: seq<Frag>)
    requires RecvOk(k, log) && AcksOk(k)
    ensures var k' := k.(askTell := tell);
            RecvOk(k', log) && AcksOk(k') && HeldGrows(k, k') && Delivered(k') == Delivered(k)
  {
  }

  lemma RecvStepKeeps(x: Half, y: Half, len: int)
    requires Own(x) && Own(y) && Link(x, y) && Link(y, x)
    ensures var x' := DoRecv(x, len);
            Own(x') && Link(x', y) && Link(y, x') && SameConfig(x.k, x'.k) && x'.k.snd_queue == x.k.snd_queue
  {
    var x' := DoRecv(x, len);
    RecvKeeps(x.k, len);
    RecvEffect(x.k, len, y.log);
    PacketsStay(x, x'.k, x.log);
    forall sn | 0 <= sn < |y.log|
      ensures InBuf(y.k.snd_buf, sn) || Held(x'.k, sn)
    {
    }
  }

  lemma {:induction false} FirstMessageIsData(q: seq<Seg>)
    ensures FirstMessage(q) == Data(q[..Span(q)])
  {
    if q == [] {
    } else if q[0].frg == 0 {
      assert Data(q[..1]) == q[0].data + Data(q[..1][1..]);
    } else {
      FirstMessageIsData(q[1..]);
      assert q[..Span(q)][1..] == q[1..][..Span(q[1..])];
    }
  }

  lemma BytesAdvance(log: seq<Frag>, c: nat, n: nat)
    requires c + n <= |log|
    ensures Bytes(log[..c + n]) == Bytes(log[..c]) + Bytes(log[c..c + n])
  {
    assert log[..c + n] == log[..c] + log[c..c + n];
    BytesAppend(log[..c], log[c..c + n]);
  }

  lemma MergedBytes(k: Kcp, log: seq<Frag>)
    requires RecvOk(k, log)
    ensures var n := Span(k.rcv_queue); var c := Delivered(k);
            FirstMessage(k.rcv_queue) == Bytes(log[c..c + n])
  {
    var n := Span(k.rcv_queue);
    var c := Delivered(k);
    FirstMessageIsData(k.rcv_queue);
    DataBytes(k.rcv_queue[..n]);
    assert FragsOf(k.rcv_queue[..n]) == log[c..c + n];
  }

  lemma RecvBytes(x: Half, y: Half, len: int)
    requires RecvOk(x.k, y.log) && AcksOk(x.k) && BytesOk(y, x)
    ensures BytesOk(y, DoRecv(x, len))
  {
    RecvEffect(x.k, len, y.log);
    if RecvSucceeds(x.k, len) && len >= 0 {
      MergedBytes(x.k, y.log);
      BytesAdvance(y.log, Delivered(x.k), Span(x.k.rcv_queue));
      ConcatSnoc(x.rcvd, FirstMessage(x.k.rcv_queue));
    }
  }

  lemma {:induction false} AllFragsSplit(ms: seq<Msg>, i: nat, mss: int)
    requires mss > 0 && i < |ms|
    ensures AllFrags(ms[..i], mss) + MsgFrags(ms[i], mss) <= AllFrags(ms, mss)
    ensures AllFrags(ms[..i + 1], mss) == AllFrags(ms[..i], mss) + MsgFrags(ms[i], mss)
  {
    assert ms[..i + 1][..i] == ms[..i];
    if i == |ms| - 1 {
      assert ms[..i + 1] == ms;
    } else {
      var init := ms[..|ms| - 1];
      AllFragsSplit(init, i, mss);
      assert init[..i] == ms[..i] && init[i] == ms[i];
    }
  }

  /** A queue whose first fragments are exactly one message's spans exactly that message. */
  lemma {:induction false} SpanCountsDown(q: seq<Seg>, f: nat)
    requires 0 < f <= |q|
    requires forall i :: 0 <= i < f ==> q[i].frg == f - 1 - i
    ensures Span(q) == f
  {
    if f > 1 {
      SpanCountsDown(q[1..], f - 1);
    }
  }

  /** The heart of message mode: what ikcp_recv returns is the peer's next unsent-so-far message. */
  lemma RecvNextMessage(x: Half, y: Half, len: int)
    requires Inv(x.k) && RecvOk(x.k, y.log) && MsgsOk(y, x) && RecvSucceeds(x.k, len)
    ensures |x.rcvd| < |y.sent| && Recv(x.k, len).2 == y.sent[|x.rcvd|]
    ensures Span(x.k.rcv_queue) == |MsgFrags(y.sent[|x.rcvd|], y.k.mss)|
  {
    var q := x.k.rcv_queue;
    var i := |x.rcvd|;
    NextMessageQueued(x, y);
    var m := y.sent[i];
    FragmentsCountDown(m, y.k.mss);
    assert FragOf(q[0]) == MsgFrags(m, y.k.mss)[0];
    WholeMessage(q, m, y.k.mss);
  }

  /** The receive queue and the next message's fragments agree as far as both go. */
  lemma NextMessageQueued(x: Half, y: Half)
    requires RecvOk(x.k, y.log) && MsgsOk(y, x) && x.k.rcv_queue != []
    ensures |x.rcvd| < |y.sent|
    ensures var m := y.sent[|x.rcvd|]; var fr := MsgFrags(m, y.k.mss);
            && |fr| < WND_RCV
            && forall j :: 0 <= j < |fr| && j < |x.k.rcv_queue| ==> FragOf(x.k.rcv_queue[j]) == fr[j]
  {
    MoreSent(x, y);
    var i := |x.rcvd|;
    assert y.sent[..i] == x.rcvd;
    AllFragsSplit(y.sent, i, y.k.mss);
    QueueAligned(x.k, y.log, Queued(y), AllFrags(x.rcvd, y.k.mss), MsgFrags(y.sent[i], y.k.mss));
  }

  lemma QueueAligned(k: Kcp, log: seq<Frag>, all: seq<Frag>, before: seq<Frag>, next: seq<Frag>)
    requires RecvOk(k, log) && log <= all && before + next <= all && |before| == Delivered(k)
    ensures forall j :: 0 <= j < |next| && j < |k.rcv_queue| ==> FragOf(k.rcv_queue[j]) == next[j]
  {
    forall j | 0 <= j < |next| && j < |k.rcv_queue|
      ensures FragOf(k.rcv_queue[j]) == next[j]
    {
      assert all[Delivered(k) + j] == log[Delivered(k) + j];
      assert (before + next)[Delivered(k) + j] == next[j];
    }
  }

  lemma MoreSent(x: Half, y: Half)
    requires RecvOk(x.k, y.log) && MsgsOk(y, x) && x.k.rcv_queue != []
    ensures |x.rcvd| < |y.sent|
  {
    assert |Queued(y)| > Delivered(x.k);
    if x.rcvd == y.sent {
      assert false;
    }
  }

  lemma {:induction false} WholeMessage(q: seq<Seg>, m: Msg, mss: int)
    requires mss > 0 && |q| >= |Fragments(m, mss, false)| && |MsgFrags(m, mss)| < WND_RCV
    requires forall j :: 0 <= j < |MsgFrags(m, mss)| ==> FragOf(q[j]) == MsgFrags(m, mss)[j]
    ensures Span(q) == |MsgFrags(m, mss)| && FirstMessage(q) == m
  {
    var fr := MsgFrags(m, mss);
    FragmentsCountDown(m, mss);
    forall j | 0 <= j < |fr|
      ensures q[j].frg == |fr| - 1 - j
    {
      assert FragOf(q[j]) == fr[j];
    }
    SpanCountsDown(q, |fr|);
    FirstMessageIsData(q);
    assert FragsOf(q[..|fr|]) == fr;
    DataBytes(q[..|fr|]);
    DataBytes(Fragments(m, mss, false));
    FragmentsData(m, mss, false);
  }

  lemma RecvHistory(x: Half, y: Half, len: int)
    requires Inv(x.k) && RecvOk(x.k, y.log) && AcksOk(x.k) && MsgsOk(y, x)
    ensures MsgsOk(y, DoRecv(x, len))
  {
    RecvEffect(x.k, len, y.log);
    if RecvSucceeds(x.k, len) && len >= 0 {
      RecvNextMessage(x, y, len);
      NextRecorded(x.rcvd, y.sent, y.k.mss);
      assert DoRecv(x, len).rcvd == x.rcvd + [y.sent[|x.rcvd|]];
    }
  }

  lemma {:induction false} NextRecorded(got: seq<Msg>, sent: seq<Msg>, mss: int)
    requires mss > 0 && got <= sent && |got| < |sent|
    ensures got + [sent[|got|]] <= sent
    ensures AllFrags(got + [sent[|got|]], mss) == AllFrags(got, mss) + MsgFrags(sent[|got|], mss)
  {
    AllFragsSnoc(got, sent[|got|], mss);
    PrefixSnoc(got, sent);
  }

  lemma PrefixSnoc(got: seq<Msg>, sent: seq<Msg>)
    requires got <= sent && |got| < |sent|
    ensures got + [sent[|got|]] <= sent
  {
  }

  // ---- flushing ----

  lemma {:induction false} AdmitLog(k: Kcp, cwnd: u32, log: seq<Frag>) returns (n: nat)
    requires SendOk(k, log)
    ensures n <= |k.snd_queue| && Admit(k, cwnd).snd_queue == k.snd_queue[n..]
    ensures var k' := Admit(k, cwnd); var log' := log + FragsOf(k.snd_queue[..n]);
            |log'| < HALF ==>
              && SendOk(k', log')
              && (forall sn :: InBuf(k.snd_buf, sn) ==> InBuf(k'.snd_buf, sn))
              && (forall sn :: |log| <= sn < |log'| ==> InBuf(k'.snd_buf, sn))
    decreases |k.snd_queue|
  {
    if Diff(k.snd_nxt, Add(k.snd_una, cwnd)) < 0 && k.snd_queue != [] {
      var k1 := AdmitOne(k);
      var log1 := log + [FragOf(k.snd_queue[0])];
      if |log1| < HALF {
        AdmitOneLog(k, log);
        var n1 := AdmitLog(k1, cwnd, log1);
        n := n1 + 1;
        AdmitStep(k.snd_queue, n1, log);
      } else {
        n := AdmitCount(k, cwnd);
        assert n > 0;
      }
    } else {
      n := 0;
    }
  }

  lemma AdmitStep(q: seq<Seg>, n: nat, log: seq<Frag>)
    requires q != [] && n < |q|
    ensures log + [FragOf(q[0])] + FragsOf(q[1..][..n]) == log + FragsOf(q[..n + 1])
    ensures q[1..][n..] == q[n + 1..]
  {
  }

  lemma {:induction false} AdmitCount(k: Kcp, cwnd: u32) returns (n: nat)
    ensures n <= |k.snd_queue| && Admit(k, cwnd).snd_queue == k.snd_queue[n..]
    ensures Diff(k.snd_nxt, Add(k.snd_una, cwnd)) < 0 && k.snd_queue != [] ==> n > 0
    decreases |k.snd_queue|
  {
    if Diff(k.snd_nxt, Add(k.snd_una, cwnd)) < 0 && k.snd_queue != [] {
      var n1 := AdmitCount(AdmitOne(k), cwnd);
      n := n1 + 1;
    } else {
      n := 0;
    }
  }

  lemma AdmitOneLog(k: Kcp, log: seq<Frag>)
    requires SendOk(k, log) && k.snd_queue != [] && |log| + 1 < HALF
    ensures var k' := AdmitOne(k);
            SendOk(k', log + [FragOf(k.snd_queue[0])]) && InBuf(k'.snd_buf, |log|)
            && (forall sn :: InBuf(k.snd_buf, sn) ==> InBuf(k'.snd_buf, sn))
  {
    var buf' := AdmitOne(k).snd_buf;
    assert buf'[|k.snd_buf|].sn == |log|;
    forall sn | InBuf(k.snd_buf, sn)
      ensures InBuf(buf', sn)
    {
      var i :| 0 <= i < |k.snd_buf| && k.snd_buf[i].sn == sn;
      assert buf'[i].sn == sn;
    }
  }

  lemma {:induction false} SweepNumbers(k: Kcp, log: seq<Frag>)
    requires SendOk(k, log)
    ensures SendOk(k.(snd_buf := SweepAll(k, k.snd_buf).buf), log)
    ensures forall n :: InBuf(k.snd_buf, n) ==> InBuf(SweepAll(k, k.snd_buf).buf, n)
  {
    SweepShape(k, k.snd_buf);
    SameNumbers(k.snd_buf, SweepAll(k, k.snd_buf).buf, log);
  }

  lemma ReadyIsSame(k: Kcp)
    requires Inv(k)
    ensures var k1 := ReadyToSend(k);
            Inv(k1) && SameConfig(k, k1) && SameReceive(k, k1) && k1.snd_una == k.snd_una && k1.acklist == []
  {
    ReadyKeeps(k);
    AdmitKeeps(Probed(k), EffectiveWnd(k));
  }

  lemma AckHonest(k: Kcp, log: seq<Frag>, s: Seg)
    requires AcksOk(k) && s in AckSegs(k) + ProbeSegs(k)
    ensures Honest(OnWire(s), k, log)
  {
    if s in AckSegs(k) {
      var i :| 0 <= i < |k.acklist| && s == AckSegs(k)[i];
      assert k.acklist[i] in k.acklist;
    }
  }

  lemma TransmitHonest(k: Kcp, k1: Kcp, log: seq<Frag>, s: Seg)
    requires k1.rcv_nxt == k.rcv_nxt && !Why(k1, s).Hold? && s.frg < 256 && s.cmd == CMD_PUSH
    requires s.sn < |log| && FragOf(s) == log[s.sn]
    ensures Honest(OnWire(Transmit(k1, s)), k, log)
  {
  }

  lemma {:induction false} DataHonest(k: Kcp, k1: Kcp, log: seq<Frag>, s: Seg)
    requires SendSide(k1) && SendOk(k1, log) && k1.rcv_nxt == k.rcv_nxt
    requires s in SweepAll(k1, k1.snd_buf).out
    ensures Honest(OnWire(s), k, log)
  {
    var i := SweepOut(k1, k1.snd_buf, s);
    assert k1.snd_buf[i] in k1.snd_buf;
    TransmitHonest(k, k1, log, k1.snd_buf[i]);
  }

  lemma FlushSegsHonest(k: Kcp, log: seq<Frag>, s: Seg)
    requires Inv(k) && AcksOk(k) && SendOk(ReadyToSend(k), log) && s in FlushSegs(k)
    ensures Honest(OnWire(s), k, log)
  {
    ReadyIsSame(k);
    var k1 := ReadyToSend(k);
    if s in AckSegs(k) + ProbeSegs(k) {
      AckHonest(k, log, s);
    } else {
      DataHonest(k, k1, log, s);
    }
  }

  lemma FlushPacketsHonest(k: Kcp, log: seq<Frag>)
    requires Inv(k) && k.updated && AcksOk(k) && SendOk(ReadyToSend(k), log)
    ensures forall p :: p in Flush(k).1 ==> HonestPacket(p, k, log)
  {
    var segs := FlushSegs(k);
    FlushOnTheWire(k);
    forall p, s | p in Flush(k).1 && s in Decode(p, k.conv).segs
      ensures Honest(s, k, log)
    {
      DecodedFrom(Flush(k).1, k.conv, p, s);
      var i :| 0 <= i < |segs| && AllOnWire(segs)[i] == s;
      FlushSegsHonest(k, log, segs[i]);
    }
  }

  /** The packets, the numbered fragments and the state after one flush. */
  lemma FlushEffect(k: Kcp, log: seq<Frag>) returns (n: nat)
    requires Inv(k) && SendOk(k, log) && AcksOk(k)
    ensures n <= |k.snd_queue| && Flush(k).0.snd_queue == k.snd_queue[n..]
    ensures var k' := Flush(k).0; var log' := log + FragsOf(k.snd_queue[..n]);
            |log'| < HALF ==>
              && SendOk(k', log') && AcksOk(k')
              && (forall sn :: InBuf(k.snd_buf, sn) ==> InBuf(k'.snd_buf, sn))
              && (forall sn :: |log| <= sn < |log'| ==> InBuf(k'.snd_buf, sn))
              && (forall p :: p in Flush(k).1 ==> HonestPacket(p, k, log'))
  {
    if !k.updated {
      n := 0;
      assert log + FragsOf(k.snd_queue[..0]) == log;
    } else {
      var k0 := Probed(k);
      n := AdmitLog(k0, EffectiveWnd(k), log);
      var k1 := ReadyToSend(k);
      var log' := log + FragsOf(k.snd_queue[..n]);
      if |log'| < HALF {
        ReadyIsSame(k);
        SweepNumbers(k1, log');
        FlushPacketsHonest(k, log');
      }
    }
  }

  lemma UpdateEffect(k: Kcp, now: u32, log: seq<Frag>) returns (n: nat)
    requires Inv(k) && SendOk(k, log) && AcksOk(k)
    ensures n <= |k.snd_queue| && Update(k, now).0.snd_queue == k.snd_queue[n..]
    ensures var k' := Update(k, now).0; var log' := log + FragsOf(k.snd_queue[..n]);
            |log'| < HALF ==>
              && SendOk(k', log') && AcksOk(k')
              && (forall sn :: InBuf(k.snd_buf, sn) ==> InBuf(k'.snd_buf, sn))
              && (forall sn :: |log| <= sn < |log'| ==> InBuf(k'.snd_buf, sn))
              && (forall p :: p in Update(k, now).1 ==> HonestPacket(p, k, log'))
  {
    var k1 := Ticked(k, now);
    SideTransfer(k, k1);
    if Due(k, now) {
      n := FlushEffect(k1, log);
      var log' := log + FragsOf(k.snd_queue[..n]);
      if |log'| < HALF {
        forall p | p in Update(k, now).1
          ensures HonestPacket(p, k, log')
        {
          assert HonestPacket(p, k1, log');
        }
      }
    } else {
      n := 0;
      assert log + FragsOf(k.snd_queue[..0]) == log;
    }
  }

  // ---- the system of two endpoints ----

  datatype Act = ActSend(msg: Msg) | ActRecv(len: int) | ActDeliver(packet: seq<byte>)
               | ActUpdate(now: u32) | ActTune(ctl: Ctl, interval: u32)

  /** How many queued segments an update numbers. */
  function Numbered(k: Kcp, k': Kcp): int { |k.snd_queue| - |k'.snd_queue| }

  function DoUpdate(x: Half, now: u32): Half
  {
    var (k', packets) := Update(x.k, now);
    var n := Numbered(x.k, k');
    x.(k := k', net := x.net + (set p | p in packets),
       log := if 0 <= n <= |x.k.snd_queue| then x.log + FragsOf(x.k.snd_queue[..n]) else x.log)
  }

  function Do(x: Half, act: Act): Half
  {
    if x.k.mss <= 0 then x
    else
      match act
      case ActSend(m) => DoSend(x, m)
      case ActRecv(len) => DoRecv(x, len)
      case ActDeliver(p) => x.(k := Input(x.k, p).0)
      case ActUpdate(now) => DoUpdate(x, now)
      case ActTune(c, i) => x.(k := x.k.(ctl := c, interval := i))
  }

  /** The network delivers only what the peer sent, any packet any number of times in any order
      or never; and a run numbers fewer than 2^31 segments a side. */
  predicate Enabled(x: Half, y: Half, act: Act)
  {
    && (act.ActDeliver? ==> act.packet in y.net)
    && (act.ActUpdate? ==> |Do(x, act).log| < HALF)
  }

  ghost predicate SysInv(x: Half, y: Half)
  {
    && x.k.conv == y.k.conv && Own(x) && Own(y) && Link(x, y) && Link(y, x)
    && BytesOk(x, y) && BytesOk(y, x)
    && (!x.k.stream ==> MsgsOk(x, y)) && (!y.k.stream ==> MsgsOk(y, x))
  }

  /** Histories depend on a sender's log, queue and sent messages and on what the receiver got. */
  lemma HistorySame(x: Half, y: Half, x': Half, y': Half)
    requires BytesOk(x, y)
    requires Queued(x') == Queued(x) && x.log <= x'.log && x'.sent == x.sent && x'.taken == x.taken
             && x'.k.mss == x.k.mss
    requires Delivered(y'.k) == Delivered(y.k) && y'.rcvd == y.rcvd
    ensures BytesOk(x', y')
    ensures MsgsOk(x, y) ==> MsgsOk(x', y')
  {
    assert x'.log[..Delivered(y.k)] == x.log[..Delivered(y.k)];
  }

  lemma SendStep(x: Half, y: Half, m: Msg)
    requires SysInv(x, y)
    ensures SysInv(DoSend(x, m), y)
  {
    SendStepKeeps(x, y, m);
    SendKeeps(x.k, m);
    SendBytesOk(x, y, m);
    if !x.k.stream { SendMsgsOk(x, y, m); }
    HistorySame(y, x, y, DoSend(x, m));
  }

  lemma RecvStep(x: Half, y: Half, len: int)
    requires SysInv(x, y)
    ensures SysInv(DoRecv(x, len), y)
  {
    RecvStepKeeps(x, y, len);
    HistorySame(x, y, DoRecv(x, len), y);
    RecvBytes(x, y, len);
    if !y.k.stream { RecvHistory(x, y, len); }
  }

  lemma DeliverStep(x: Half, y: Half, p: seq<byte>)
    requires SysInv(x, y) && p in y.net
    ensures SysInv(x.(k := Input(x.k, p).0), y)
  {
    DeliverKeeps(x, y, p);
    HistorySame(x, y, x.(k := Input(x.k, p).0), y);
    HistorySame(y, x, y, x.(k := Input(x.k, p).0));
  }

  /** x numbered n more queued segments and emitted packets it can stand by. */
  ghost predicate Updated(x: Half, x': Half, n: nat)
  {
    && n <= |x.k.snd_queue| && x'.k.snd_queue == x.k.snd_queue[n..] && x'.log == x.log + FragsOf(x.k.snd_queue[..n])
    && SameConfig(x.k, x'.k) && SameReceive(x.k, x'.k) && Own(x')
    && (forall sn :: InBuf(x.k.snd_buf, sn) ==> InBuf(x'.k.snd_buf, sn))
    && (forall sn :: |x.log| <= sn < |x'.log| ==> InBuf(x'.k.snd_buf, sn))
  }

  lemma UpdateOwn(x: Half, now: u32) returns (n: nat)
    requires Own(x) && |DoUpdate(x, now).log| < HALF
    ensures Updated(x, DoUpdate(x, now), n)
  {
    var x' := DoUpdate(x, now);
    UpdateKeeps(x.k, now);
    n := UpdateEffect(x.k, now, x.log);
    assert x'.log == x.log + FragsOf(x.k.snd_queue[..n]);
    HeldSame(x.k, x'.k);
    var fresh' := set p | p in Update(x.k, now).1;
    assert x'.net == x.net + fresh';
    PacketsStay(x, x'.k, x'.log);
    PacketsStay(x.(net := fresh', log := x'.log), x'.k, x'.log);
  }

  lemma QueuedSame(log: seq<Frag>, q: seq<Seg>, n: nat)
    requires n <= |q|
    ensures log + FragsOf(q[..n]) + FragsOf(q[n..]) == log + FragsOf(q)
  {
  }

  lemma UpdatedLink(x: Half, x': Half, y: Half, n: nat)
    requires Updated(x, x', n) && Link(x, y) && Link(y, x)
    ensures Link(x', y) && Link(y, x')
  {
    MoreLogged(x, x', y);
    SameHeld(y, x, x');
  }

  lemma MoreLogged(x: Half, x': Half, y: Half)
    requires Link(x, y) && x.log <= x'.log && |x'.log| < HALF
    requires forall sn :: InBuf(x.k.snd_buf, sn) ==> InBuf(x'.k.snd_buf, sn)
    requires forall sn :: |x.log| <= sn < |x'.log| ==> InBuf(x'.k.snd_buf, sn)
    ensures Link(x', y)
  {
    forall sn | 0 <= sn < |x'.log|
      ensures InBuf(x'.k.snd_buf, sn) || Held(y.k, sn)
    {
    }
  }

  lemma SameHeld(y: Half, x: Half, x': Half)
    requires Link(y, x) && SameReceive(x.k, x'.k)
    ensures Link(y, x')
  {
    HeldSame(x.k, x'.k);
  }

  lemma UpdateStep(x: Half, y: Half, now: u32)
    requires SysInv(x, y) && |DoUpdate(x, now).log| < HALF
    ensures SysInv(DoUpdate(x, now), y)
  {
    var x' := DoUpdate(x, now);
    var n := UpdateOwn(x, now);
    UpdatedLink(x, x', y, n);
    QueuedSame(x.log, x.k.snd_queue, n);
    HistorySame(x, y, x', y);
    HistorySame(y, x, y, x');
  }

  lemma TuneStep(x: Half, y: Half, ctl: Ctl, interval: u32)
    requires SysInv(x, y)
    ensures SysInv(x.(k := x.k.(ctl := ctl, interval := interval)), y)
  {
    var x' := x.(k := x.k.(ctl := ctl, interval := interval));
    SideTransfer(x.k, x'.k);
    PacketsStay(x, x'.k, x.log);
    HistorySame(x, y, x', y);
    HistorySame(y, x, y, x');
  }

  /** Any enabled action of one side keeps the whole system invariant. */
  lemma ActKeeps(x: Half, y: Half, act: Act)
    requires SysInv(x, y) && Enabled(x, y, act)
    ensures SysInv(Do(x, act), y)
  {
    DoCases(x, act);
    match act
    case ActSend(m) => SendStep(x, y, m);
    case ActRecv(len) => RecvStep(x, y, len);
    case ActDeliver(p) => DeliverStep(x, y, p);
    case ActUpdate(now) => UpdateStep(x, y, now);
    case ActTune(c, i) => TuneStep(x, y, c, i);
  }

  lemma DoCases(x: Half, act: Act)
    requires x.k.mss > 0
    ensures match act
            case ActSend(m) => Do(x, act) == DoSend(x, m)
            case ActRecv(len) => Do(x, act) == DoRecv(x, len)
            case ActDeliver(p) => Do(x, act) == x.(k := Input(x.k, p).0)
            case ActUpdate(now) => Do(x, act) == DoUpdate(x, now)
            case ActTune(c, i) => Do(x, act) == x.(k := x.k.(ctl := c, interval := i))
  {
  }

  // ---- every run ----

  datatype Sys = Sys(a: Half, b: Half)

  /** One action of the left or of the right endpoint. */
  datatype Event2 = Event2(left: bool, act: Act)

  function Fire(s: Sys, e: Event2): Sys
  {
    if e.left then Sys(Do(s.a, e.act), s.b) else Sys(s.a, Do(s.b, e.act))
  }

  predicate CanFire(s: Sys, e: Event2)
  {
    if e.left then Enabled(s.a, s.b, e.act) else Enabled(s.b, s.a, e.act)
  }

  function Run(s: Sys, es: seq<Event2>): Sys
  {
    if es == [] then s else Fire(Run(s, es[..|es| - 1]), es[|es| - 1])
  }

  predicate CanRun(s: Sys, es: seq<Event2>)
  {
    es == [] || (CanRun(s, es[..|es| - 1]) && CanFire(Run(s, es[..|es| - 1]), es[|es| - 1]))
  }

  ghost predicate Fresh(x: Half)
  {
    && (exists conv, mss, stream, snd_wnd, rcv_wnd, ctl ::
          0 < mss && mss + OVERHEAD < HALF && 0 < snd_wnd < HALF && 0 < rcv_wnd < HALF
          && x.k == Create(conv, mss, stream, snd_wnd, rcv_wnd, ctl))
    && x.net == {} && x.log == [] && x.sent == [] && x.taken == [] && x.rcvd == []
  }

  lemma FreshInv(x: Half, y: Half)
    requires Fresh(x) && Fresh(y) && x.k.conv == y.k.conv
    ensures SysInv(x, y)
  {
  }

  lemma {:induction false} RunKeeps(s: Sys, es: seq<Event2>)
    requires Fresh(s.a) && Fresh(s.b) && s.a.k.conv == s.b.k.conv && CanRun(s, es)
    ensures SysInv(Run(s, es).a, Run(s, es).b)
  {
    if es == [] {
      FreshInv(s.a, s.b);
    } else {
      RunKeeps(s, es[..|es| - 1]);
      var s1 := Run(s, es[..|es| - 1]);
      var e := es[|es| - 1];
      if e.left {
        ActKeeps(s1.a, s1.b, e.act);
      } else {
        SysInvSym(s1.a, s1.b);
        ActKeeps(s1.b, s1.a, e.act);
        SysInvSym(Do(s1.b, e.act), s1.a);
      }
    }
  }

  lemma SysInvSym(x: Half, y: Half)
    requires SysInv(x, y)
    ensures SysInv(y, x)
  {
  }

  /** End to end, both ways at once, in every run over a network that drops, duplicates, delays
      and reorders: no segment is lost (a number below snd_nxt is still buffered by its sender or
      held by the receiver), and each application has received, in message mode, a prefix of the
      peer's messages with their boundaries, in any mode a prefix of the peer's queued bytes. */
  lemma {:induction false} EndToEnd(s: Sys, es: seq<Event2>)
    requires Fresh(s.a) && Fresh(s.b) && s.a.k.conv == s.b.k.conv && CanRun(s, es)
    ensures var r := Run(s, es);
            && NoLoss(r.a, r.b) && NoLoss(r.b, r.a)
            && Concat(r.b.rcvd) <= r.a.taken && Concat(r.a.rcvd) <= r.b.taken
            && (!r.a.k.stream ==> r.b.rcvd <= r.a.sent)
            && (!r.b.k.stream ==> r.a.rcvd <= r.b.sent)
  {
    RunKeeps(s, es);
    var r := Run(s, es);
    BytesPrefix(r.a, r.b);
    BytesPrefix(r.b, r.a);
  }

  lemma BytesPrefix(x: Half, y: Half)
    requires BytesOk(x, y)
    ensures Concat(y.rcvd) <= x.taken
  {
    var c := Delivered(y.k);
    assert Queued(x) == x.log[..c] + (x.log[c..] + FragsOf(x.k.snd_queue));
    BytesAppend(x.log[..c], x.log[c..] + FragsOf(x.k.snd_queue));
  }

  /** What stream mode can still put in the last queued segment. */
  function LastRoom(k: Kcp): nat
  {
    if k.stream && k.snd_queue != [] then Max(0, k.mss - |k.snd_queue[|k.snd_queue| - 1].data|) else 0
  }

  /** ikcp_send refuses, with -2, exactly what needs more than 127 full segments beyond that room. */
  lemma SendExact(k: Kcp, m: Msg)
    requires k.mss > 0
    ensures Send(k, m).1 == if |m| - Min(|m|, LastRoom(k)) > 127 * k.mss then -2 else 0
  {
    var rest := m[Extend(k, |m|)..];
    FragmentsCount(rest, k.mss, k.stream);
    CountBelow(|rest|, k.mss);
  }

  lemma CountBelow(len: nat, mss: int)
    requires mss > 0
    ensures FragCount(len, mss) >= 128 <==> len > 127 * mss
  {
    if len > mss {
      var x := len + mss - 1;
      MulLe(128, x / mss, mss);
      MulLe(x / mss, 127, mss);
      Divided(x, mss);
    }
  }

  lemma Divided(x: nat, m: nat)
    requires m > 0
    ensures (x / m) * m <= x < (x / m) * m + m
  {
  }

  lemma MulLe(a: int, b: int, m: nat)
    ensures a <= b ==> a * m <= b * m
  {
  }

  /** A send that fails leaves the queue's bytes alone exactly when stream mode had no room in the
      last queued segment: otherwise ikcp_send fills that segment first and only then discovers
      that the rest needs 128 fragments or more, so the caller's bytes are half sent. */
  lemma FailedSendClean(k: Kcp, m: Msg)
    requires Inv(k) && Send(k, m).1 != 0
    ensures Send(k, m).0.snd_queue == k.snd_queue <==> !CanExtend(k)
    ensures Taken(k, m) == 0 <==> !CanExtend(k)
  {
    AbsorbBytes(k, m);
  }

  /** Concretely: with the default packet size, one byte already queued in stream mode and a
      message that fills that segment and leaves 127 full segments and a byte, ikcp_send returns
      -2 after 1375 bytes of the message have joined the queue. */
  lemma FailedSendHalfDone(m: Msg)
    requires |m| == 1375 + 127 * 1376 + 1
    ensures var k := Send(Create(1, 1376, true, 32, 128, FIRST_CTL), [7]).0;
            && Inv(k) && Send(k, m).1 == -2 && Taken(k, m) == 1375
            && Bytes(FragsOf(Send(k, m).0.snd_queue)) == [7] + m[..1375]
  {
    var k0 := Create(1, 1376, true, 32, 128, FIRST_CTL);
    SendKeeps(k0, [7]);
    FirstByteQueued(k0);
    HalfSent(Send(k0, [7]).0, m);
  }

  lemma FirstByteQueued(k: Kcp)
    requires k.snd_queue == [] && k.mss == 1376 && k.stream
    ensures var k' := Send(k, [7]).0;
            k'.snd_queue == [NewSeg(0, [7])] && k'.mss == 1376 && k'.stream
  {
    assert [7][0..] == [7];
    assert [] + [NewSeg(0, [7])] == [NewSeg(0, [7])];
  }

  lemma HalfSent(k: Kcp, m: Msg)
    requires k.snd_queue == [NewSeg(0, [7])] && k.mss == 1376 && k.stream && |m| == 1375 + 127 * 1376 + 1
    ensures Send(k, m).1 == -2 && Taken(k, m) == 1375
    ensures Bytes(FragsOf(Send(k, m).0.snd_queue)) == [7] + m[..1375]
  {
    assert Extend(k, |m|) == 1375;
    FragmentsCount(m[1375..], 1376, true);
    assert Send(k, m) == (Absorb(k, m), -2);
    AbsorbBytes(k, m);
    assert FragsOf(k.snd_queue) == [Frag(0, [7])];
    assert Bytes([Frag(0, [7])]) == [7] + Bytes([]) == [7];
  }
}
