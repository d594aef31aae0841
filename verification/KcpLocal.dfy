/** What one KCP endpoint keeps on its own, whatever bytes the network hands it and across
    wrap-around of the 32-bit sequence numbers. */
module KcpLocal {
  import opened U32
  import opened KcpWire
  import opened KcpModel
  import Bits

  /** Strictly increasing sequence numbers, counted cyclically from base, all within limit. */
  ghost predicate Ordered(buf: seq<Seg>, base: u32, limit: int)
  {
    && (forall i :: 0 <= i < |buf| ==> Sub(buf[i].sn, base) < limit)
    && (forall i, j :: 0 <= i < j < |buf| ==> Sub(buf[i].sn, base) < Sub(buf[j].sn, base))
  }

  ghost predicate ConfigOk(k: Kcp)
  {
    && 0 < k.mss && k.mtu == k.mss + OVERHEAD < HALF
    && 0 < k.snd_wnd < HALF && 0 < k.rcv_wnd < HALF
  }

  /** Segments small enough for one packet, numbered from fewer than 128 fragments. */
  ghost predicate FitsMss(q: seq<Seg>, mss: int)
  {
    forall s :: s in q ==> |s.data| <= mss && s.frg < WND_RCV
  }

  ghost predicate SendSide(k: Kcp)
  {
    && k.nsnd_que == |k.snd_queue| && k.nsnd_buf == |k.snd_buf|
    && Ordered(k.snd_buf, k.snd_una, Sub(k.snd_nxt, k.snd_una))
    && Sub(k.snd_nxt, k.snd_una) <= k.snd_wnd
    && k.snd_una == (if k.snd_buf != [] then k.snd_buf[0].sn else k.snd_nxt)
    && FitsMss(k.snd_queue, k.mss) && FitsMss(k.snd_buf, k.mss)
    && (forall s :: s in k.snd_buf ==> s.conv == k.conv && s.cmd == CMD_PUSH)
  }

  /** rcv_queue holds the last |rcv_queue| numbers before rcv_nxt, in order. */
  ghost predicate Contiguous(q: seq<Seg>, nxt: u32)
  {
    forall i :: 0 <= i < |q| ==> Sub(nxt, q[i].sn) == |q| - i
  }

  ghost predicate ReceiveSide(k: Kcp)
  {
    && k.nrcv_que == |k.rcv_queue| <= k.rcv_wnd && k.nrcv_buf == |k.rcv_buf|
    && Ordered(k.rcv_buf, k.rcv_nxt, k.rcv_wnd)
    && Contiguous(k.rcv_queue, k.rcv_nxt)
  }

  /** Nothing that could be queued is left waiting in rcv_buf. */
  ghost predicate Drained(k: Kcp)
  {
    k.rcv_buf != [] && k.rcv_buf[0].sn == k.rcv_nxt ==> k.nrcv_que >= k.rcv_wnd
  }

  ghost predicate Inv(k: Kcp)
  {
    ConfigOk(k) && SendSide(k) && ReceiveSide(k) && Drained(k)
  }

  ghost predicate SameConfig(k: Kcp, k': Kcp)
  {
    && k'.conv == k.conv && k'.mtu == k.mtu && k'.mss == k.mss && k'.stream == k.stream
    && k'.snd_wnd == k.snd_wnd && k'.rcv_wnd == k.rcv_wnd
  }

  ghost predicate SameReceive(k: Kcp, k': Kcp)
  {
    && k'.rcv_nxt == k.rcv_nxt && k'.rcv_queue == k.rcv_queue && k'.rcv_buf == k.rcv_buf
    && k'.nrcv_que == k.nrcv_que && k'.nrcv_buf == k.nrcv_buf
  }

  ghost predicate SameSend(k: Kcp, k': Kcp)
  {
    && k'.snd_una == k.snd_una && k'.snd_nxt == k.snd_nxt && k'.snd_queue == k.snd_queue && k'.snd_buf == k.snd_buf
    && k'.nsnd_que == k.nsnd_que && k'.nsnd_buf == k.nsnd_buf
  }

  /** The window's left edge moved forward, never past snd_nxt. */
  ghost predicate UnaAdvances(k: Kcp, k': Kcp)
  {
    Sub(k'.snd_una, k.snd_una) <= Sub(k.snd_nxt, k.snd_una)
  }

  // ---- acknowledgements ----

  /** Only a prefix of the buffer is dropped, and only segments before una. */
  lemma {:induction false} DropIsSuffix(buf: seq<Seg>, una: u32)
    ensures var r := DropAcked(buf, una);
            |r| <= |buf| && r == buf[|buf| - |r|..]
            && forall i :: 0 <= i < |buf| - |r| ==> Diff(una, buf[i].sn) > 0
  {
    if buf != [] && Diff(una, buf[0].sn) > 0 {
      DropIsSuffix(buf[1..], una);
    }
  }

  lemma UnaKeeps(k: Kcp, una: u32)
    requires ConfigOk(k) && SendSide(k)
    ensures var k' := Shrink(ParseUna(k, una));
            SendSide(k') && UnaAdvances(k, k') && SameConfig(k, k') && SameReceive(k, k') && k'.snd_nxt == k.snd_nxt
            && k'.snd_queue == k.snd_queue
  {
    var n := |k.snd_buf| - |DropAcked(k.snd_buf, una)|;
    DropIsSuffix(k.snd_buf, una);
    DropKeeps(k, n);
  }

  /** Removing any prefix of snd_buf and moving snd_una to the new first segment. */
  lemma DropKeeps(k: Kcp, n: nat)
    requires ConfigOk(k) && SendSide(k) && n <= |k.snd_buf|
    ensures var k' := Shrink(k.(snd_buf := k.snd_buf[n..], nsnd_buf := k.nsnd_buf - n));
            SendSide(k') && UnaAdvances(k, k')
  {
    var buf := k.snd_buf[n..];
    var k' := Shrink(k.(snd_buf := buf, nsnd_buf := k.nsnd_buf - n));
    assert forall i :: 0 <= i < |buf| ==> buf[i] == k.snd_buf[n + i];
    assert buf != [] ==> buf[0] == k.snd_buf[n];
    forall i | 0 <= i < |buf|
      ensures Sub(buf[i].sn, k'.snd_una) == Sub(buf[i].sn, k.snd_una) - Sub(k'.snd_una, k.snd_una)
    {
    }
  }

  lemma RemoveKeeps(k: Kcp, i: nat)
    requires ConfigOk(k) && SendSide(k) && i < |k.snd_buf|
    ensures var k' := Shrink(k.(snd_buf := k.snd_buf[..i] + k.snd_buf[i + 1..], nsnd_buf := k.nsnd_buf - 1));
            SendSide(k') && UnaAdvances(k, k')
  {
    if i == 0 {
      DropKeeps(k, 1);
      assert k.snd_buf[..0] + k.snd_buf[1..] == k.snd_buf[1..];
    } else {
      var buf := k.snd_buf[..i] + k.snd_buf[i + 1..];
      assert forall j :: 0 <= j < |buf| ==> buf[j] == k.snd_buf[if j < i then j else j + 1];
    }
  }

  lemma AckKeeps(k: Kcp, sn: u32)
    requires ConfigOk(k) && SendSide(k)
    ensures var k' := Shrink(ParseAck(k, sn));
            SendSide(k') && UnaAdvances(k, k') && SameConfig(k, k') && SameReceive(k, k') && k'.snd_nxt == k.snd_nxt
            && k'.snd_queue == k.snd_queue
  {
    if AckInRange(k, sn) && FindSn(k.snd_buf, sn) < |k.snd_buf| {
      RemoveKeeps(k, FindSn(k.snd_buf, sn));
    }
  }

  lemma {:induction false} BumpShape(buf: seq<Seg>, sn: u32)
    ensures var r := BumpSkipped(buf, sn);
            |r| == |buf| && forall i :: 0 <= i < |buf| ==> r[i] == buf[i].(fastack := r[i].fastack)
  {
    if buf == [] || Diff(sn, buf[0].sn) < 0 {
    } else {
      BumpShape(buf[1..], sn);
    }
  }

  lemma SameShapeKeeps(k: Kcp, buf: seq<Seg>)
    requires SendSide(k) && |buf| == |k.snd_buf|
    requires forall i :: 0 <= i < |buf| ==>
               buf[i].sn == k.snd_buf[i].sn && buf[i].data == k.snd_buf[i].data && buf[i].frg == k.snd_buf[i].frg
               && buf[i].conv == k.snd_buf[i].conv && buf[i].cmd == k.snd_buf[i].cmd
    ensures SendSide(k.(snd_buf := buf))
  {
    forall s | s in buf
      ensures |s.data| <= k.mss && s.frg < WND_RCV && s.conv == k.conv && s.cmd == CMD_PUSH
    {
      var i :| 0 <= i < |buf| && buf[i] == s;
      assert k.snd_buf[i] in k.snd_buf;
    }
  }

  // ---- incoming data ----

  lemma {:induction false} MoveReadyKeeps(k: Kcp)
    requires ConfigOk(k) && ReceiveSide(k)
    ensures var k' := MoveReady(k);
            ReceiveSide(k') && Drained(k') && SameConfig(k, k') && SameSend(k, k')
    decreases |k.rcv_buf|
  {
    if k.rcv_buf != [] && k.rcv_buf[0].sn == k.rcv_nxt && k.nrcv_que < k.rcv_wnd {
      var k1 := k.(rcv_buf := k.rcv_buf[1..], nrcv_buf := k.nrcv_buf - 1,
                   rcv_queue := k.rcv_queue + [k.rcv_buf[0]], nrcv_que := k.nrcv_que + 1,
                   rcv_nxt := Add(k.rcv_nxt, 1));
      forall i | 0 <= i < |k1.rcv_buf|
        ensures Sub(k1.rcv_buf[i].sn, k1.rcv_nxt) == Sub(k.rcv_buf[i + 1].sn, k.rcv_nxt) - 1
      {
        assert Sub(k.rcv_buf[0].sn, k.rcv_nxt) < Sub(k.rcv_buf[i + 1].sn, k.rcv_nxt);
      }
      forall i | 0 <= i < |k1.rcv_queue|
        ensures Sub(k1.rcv_nxt, k1.rcv_queue[i].sn) == |k1.rcv_queue| - i
      {
        if i < |k.rcv_queue| {
          assert Sub(k.rcv_nxt, k.rcv_queue[i].sn) == |k.rcv_queue| - i;
        }
      }
      MoveReadyKeeps(k1);
    }
  }

  ghost predicate HasSn(buf: seq<Seg>, sn: u32)
  {
    exists i :: 0 <= i < |buf| && buf[i].sn == sn
  }

  /** In an ordered buffer the backward search finds the repeat if there is one, and otherwise
      the one place that keeps the buffer ordered. */
  lemma {:induction false} PlaceForCorrect(buf: seq<Seg>, sn: u32, base: u32, limit: int)
    requires Ordered(buf, base, limit) && limit < HALF && Sub(sn, base) < limit
    ensures PlaceFor(buf, sn).Repeat? <==> HasSn(buf, sn)
    ensures PlaceFor(buf, sn).At? ==>
              var p := PlaceFor(buf, sn).index;
              && (forall i :: 0 <= i < p ==> Sub(buf[i].sn, base) < Sub(sn, base))
              && (forall i :: p <= i < |buf| ==> Sub(sn, base) < Sub(buf[i].sn, base))
  {
    if buf == [] {
    } else {
      var n := |buf| - 1;
      assert buf[n] == buf[|buf| - 1];
      if buf[n].sn == sn {
      } else if Diff(sn, buf[n].sn) > 0 {
        assert Sub(buf[n].sn, base) < Sub(sn, base);
      } else {
        PlaceForCorrect(buf[..n], sn, base, limit);
        PlaceBefore(buf, sn, base, limit);
      }
    }
  }

  /** The search goes on below a last number that is greater. */
  lemma PlaceBefore(buf: seq<Seg>, sn: u32, base: u32, limit: int)
    requires Ordered(buf, base, limit) && limit < HALF && Sub(sn, base) < limit && buf != []
    requires buf[|buf| - 1].sn != sn && Diff(sn, buf[|buf| - 1].sn) <= 0
    ensures PlaceFor(buf, sn) == PlaceFor(buf[..|buf| - 1], sn)
    ensures Sub(sn, base) < Sub(buf[|buf| - 1].sn, base)
    ensures HasSn(buf, sn) <==> HasSn(buf[..|buf| - 1], sn)
  {
    if i :| 0 <= i < |buf| && buf[i].sn == sn {
      assert buf[..|buf| - 1][i].sn == sn;
    }
  }

  /** The two cyclic comparisons of ikcp_parse_data accept exactly the receive window. */
  lemma WindowExact(k: Kcp, sn: u32)
    requires ConfigOk(k)
    ensures InWindow(k, sn) <==> Sub(sn, k.rcv_nxt) < k.rcv_wnd
  {
  }

  lemma InsertKeeps(k: Kcp, s: Seg, p: nat)
    requires ConfigOk(k) && ReceiveSide(k) && Sub(s.sn, k.rcv_nxt) < k.rcv_wnd
    requires PlaceFor(k.rcv_buf, s.sn) == At(p)
    ensures ReceiveSide(k.(rcv_buf := k.rcv_buf[..p] + [s] + k.rcv_buf[p..], nrcv_buf := k.nrcv_buf + 1))
  {
    PlaceForCorrect(k.rcv_buf, s.sn, k.rcv_nxt, k.rcv_wnd);
    InsertOrdered(k.rcv_buf, s, p, k.rcv_nxt, k.rcv_wnd);
  }

  lemma InsertOrdered(buf: seq<Seg>, s: Seg, p: nat, base: u32, limit: int)
    requires Ordered(buf, base, limit) && Sub(s.sn, base) < limit && p <= |buf|
    requires forall i :: 0 <= i < p ==> Sub(buf[i].sn, base) < Sub(s.sn, base)
    requires forall i :: p <= i < |buf| ==> Sub(s.sn, base) < Sub(buf[i].sn, base)
    ensures Ordered(buf[..p] + [s] + buf[p..], base, limit)
  {
    var r := buf[..p] + [s] + buf[p..];
    assert forall i :: 0 <= i < |r| ==> r[i] == if i < p then buf[i] else if i == p then s else buf[i - 1];
  }

  lemma ParseDataKeeps(k: Kcp, s: Seg)
    requires ConfigOk(k) && ReceiveSide(k) && Drained(k)
    ensures var k' := ParseData(k, s);
            ReceiveSide(k') && Drained(k') && SameConfig(k, k') && SameSend(k, k')
  {
    if InWindow(k, s.sn) {
      WindowExact(k, s.sn);
      match PlaceFor(k.rcv_buf, s.sn)
      case Repeat =>
        MoveReadyKeeps(k);
      case At(p) =>
        InsertKeeps(k, s, p);
        MoveReadyKeeps(k.(rcv_buf := k.rcv_buf[..p] + [s] + k.rcv_buf[p..], nrcv_buf := k.nrcv_buf + 1));
    }
  }

  lemma SideTransfer(k: Kcp, k': Kcp)
    requires SameConfig(k, k')
    ensures SameSend(k, k') && SendSide(k) ==> SendSide(k')
    ensures SameReceive(k, k') && ReceiveSide(k) ==> ReceiveSide(k')
    ensures SameReceive(k, k') && Drained(k) ==> Drained(k')
  {
  }

  /** One step of ikcp_input: invariant kept, window moving forward, nothing new numbered. */
  ghost predicate GoodStep(k: Kcp, k': Kcp)
  {
    Inv(k') && UnaAdvances(k, k') && SameConfig(k, k') && k'.snd_nxt == k.snd_nxt && k'.snd_queue == k.snd_queue
  }

  lemma HeaderKeeps(k: Kcp, wnd: u32, una: u32)
    requires Inv(k)
    ensures GoodStep(k, Shrink(ParseUna(k.(rmt_wnd := wnd), una)))
  {
    var k0 := k.(rmt_wnd := wnd);
    SideTransfer(k, k0);
    UnaKeeps(k0, una);
    SideTransfer(k0, Shrink(ParseUna(k0, una)));
  }

  lemma ProcessAckKeeps(k: Kcp, s: Seg)
    requires Inv(k)
    ensures GoodStep(k, ProcessAck(k, s))
  {
    var rtt := Diff(k.current, s.ts);
    var k1 := if rtt >= 0 then k.(ctl := UpdateAck(k.ctl, k.interval, rtt)) else k;
    SideTransfer(k, k1);
    AckKeeps(k1, s.sn);
    SideTransfer(k1, Shrink(ParseAck(k1, s.sn)));
  }

  lemma ProcessPushKeeps(k: Kcp, s: Seg)
    requires Inv(k)
    ensures GoodStep(k, ProcessPush(k, s))
  {
    var k1 := k.(acklist := k.acklist + [(s.sn, s.ts)]);
    SideTransfer(k, k1);
    ParseDataKeeps(k1, s);
    SideTransfer(k1, ParseData(k1, s));
  }

  lemma ProcessSegKeeps(k: Kcp, s: Seg)
    requires Inv(k)
    ensures GoodStep(k, ProcessSeg(k, s))
  {
    var k1 := Shrink(ParseUna(k.(rmt_wnd := s.wnd), s.una));
    HeaderKeeps(k, s.wnd, s.una);
    if s.cmd == CMD_ACK {
      ProcessAckKeeps(k1, s);
    } else if s.cmd == CMD_PUSH {
      ProcessPushKeeps(k1, s);
    } else if s.cmd == CMD_WASK {
      SideTransfer(k1, k1.(askTell := true));
    }
  }

  lemma {:induction false} ProcessAllKeeps(k: Kcp, segs: seq<Seg>)
    requires Inv(k)
    ensures GoodStep(k, ProcessAll(k, segs))
    decreases |segs|
  {
    if segs == [] {
    } else {
      ProcessSegKeeps(k, segs[0]);
      ProcessAllKeeps(ProcessSeg(k, segs[0]), segs[1..]);
    }
  }

  lemma FastackKeeps(k: Kcp, sn: u32)
    requires Inv(k)
    ensures var k' := ParseFastack(k, sn);
            Inv(k') && k'.snd_una == k.snd_una && SameConfig(k, k') && SameReceive(k, k') && k'.snd_nxt == k.snd_nxt
            && k'.snd_queue == k.snd_queue
  {
    BumpShape(k.snd_buf, sn);
    if AckInRange(k, sn) {
      SameShapeKeeps(k, BumpSkipped(k.snd_buf, sn));
    }
    SideTransfer(k, ParseFastack(k, sn));
  }

  lemma AfterInputKeeps(k: Kcp, acks: Acks, prev_una: u32)
    requires Inv(k)
    ensures var k' := AfterInput(k, acks, prev_una);
            Inv(k') && k'.snd_una == k.snd_una && SameConfig(k, k') && SameReceive(k, k') && k'.snd_nxt == k.snd_nxt
            && k'.snd_queue == k.snd_queue
  {
    var k1 := if acks.Seen? then ParseFastack(k, acks.maxack) else k;
    if acks.Seen? { FastackKeeps(k, acks.maxack); }
    SideTransfer(k1, k1.(ctl := Grow(k1.ctl, k1.mss, k1.rmt_wnd)));
  }

  /** Whatever bytes arrive, well formed or not, forged or not. */
  lemma InputKeeps(k: Kcp, b: seq<byte>)
    requires Inv(k)
    ensures GoodStep(k, Input(k, b).0)
  {
    if Signed(|b|) >= OVERHEAD {
      var d := Decode(b, k.conv);
      ProcessAllKeeps(k, d.segs);
      AfterInputKeeps(ProcessAll(k, d.segs), NoteAll(NoAck, d.segs), k.snd_una);
    }
  }

  // ---- the application side ----

  lemma {:induction false} FragmentsFit(buf: seq<byte>, mss: int, stream: bool)
    requires mss > 0
    ensures var r := Fragments(buf, mss, stream);
            forall s :: s in r ==> |s.data| <= mss && (|r| < M ==> s.frg < |r|)
    decreases |buf|
  {
    if |buf| <= mss {
    } else {
      FragmentsFit(buf[mss..], mss, stream);
      assert Fragments(buf, mss, stream)[1..] == Fragments(buf[mss..], mss, stream);
    }
  }

  /** Every piece but the last is full. */
  lemma {:induction false} FragmentsFull(buf: seq<byte>, mss: int, stream: bool, i: nat)
    requires mss > 0 && i < |Fragments(buf, mss, stream)| - 1
    ensures |Fragments(buf, mss, stream)[i].data| == mss
    decreases |buf|
  {
    if i > 0 {
      FragmentsFull(buf[mss..], mss, stream, i - 1);
    }
  }

  /** The count ikcp_send computes by division is the number of pieces its loop produces. */
  lemma {:induction false} FragmentsCount(buf: seq<byte>, mss: int, stream: bool)
    requires mss > 0
    ensures |Fragments(buf, mss, stream)| == FragCount(|buf|, mss)
    decreases |buf|
  {
    if |buf| <= mss {
    } else {
      FragmentsCount(buf[mss..], mss, stream);
      CountStep(|buf|, mss);
    }
  }

  lemma CountStep(len: nat, mss: int)
    requires 0 < mss < len
    ensures FragCount(len, mss) == 1 + FragCount(len - mss, mss)
  {
    var q := (len - 1) / mss;
    var r := (len - 1) % mss;
    assert len - 1 == q * mss + r;
    DivUnique(len + mss - 1, mss, q + 1, r);
    if len - mss > mss {
      DivUnique(len - mss + mss - 1, mss, q, r);
    } else {
      DivUnique(len - 1, mss, 1, len - 1 - mss);
    }
  }

  lemma DivUnique(a: int, d: int, q: int, r: int)
    requires d > 0 && 0 <= r < d && a == q * d + r
    ensures a / d == q
  {
    assert d * (a / d - q) == r - a % d;
    Bits.Multiples(d, a / d - q);
  }

  lemma AbsorbKeeps(k: Kcp, buf: seq<byte>)
    requires Inv(k)
    ensures var k' := Absorb(k, buf);
            SendSide(k') && SameConfig(k, k') && SameReceive(k, k') && k' == k.(snd_queue := k'.snd_queue)
  {
    if CanExtend(k) {
      assert k.snd_queue[|k.snd_queue| - 1] in k.snd_queue;
    }
  }

  lemma AppendKeeps(k: Kcp, segs: seq<Seg>)
    requires SendSide(k) && FitsMss(segs, k.mss)
    ensures SendSide(k.(snd_queue := k.snd_queue + segs, nsnd_que := k.nsnd_que + |segs|))
  {
  }

  lemma SendKeeps(k: Kcp, buf: seq<byte>)
    requires Inv(k)
    ensures var k' := Send(k, buf).0;
            Inv(k') && SameConfig(k, k') && SameReceive(k, k') && k'.snd_una == k.snd_una
            && k'.snd_nxt == k.snd_nxt && k'.snd_buf == k.snd_buf
  {
    var k1 := Absorb(k, buf);
    var segs := SendSegs(k, buf);
    AbsorbKeeps(k, buf);
    if Send(k, buf).0 == k1 {
      SideTransfer(k, k1);
    } else {
      AppendKeeps(k1, segs);
      SideTransfer(k, k1.(snd_queue := k1.snd_queue + segs, nsnd_que := k1.nsnd_que + |segs|));
    }
  }

  /** Beyond what stream mode absorbs, ikcp_send queues nothing or a few fragments that fit. */
  lemma SendSegs(k: Kcp, buf: seq<byte>) returns (segs: seq<Seg>)
    requires k.mss > 0
    ensures var k1 := Absorb(k, buf);
            Send(k, buf).0 == k1
            || (FitsMss(segs, k.mss)
                && Send(k, buf).0 == k1.(snd_queue := k1.snd_queue + segs, nsnd_que := k1.nsnd_que + |segs|))
  {
    var rest := buf[Extend(k, |buf|)..];
    segs := Fragments(rest, k.mss, k.stream);
    FragmentsFit(rest, k.mss, k.stream);
  }

  lemma UnlinkKeeps(k: Kcp, n: nat)
    requires ConfigOk(k) && ReceiveSide(k) && n <= |k.rcv_queue|
    ensures ReceiveSide(k.(rcv_queue := k.rcv_queue[n..], nrcv_que := k.nrcv_que - n))
  {
    var q := k.rcv_queue[n..];
    forall i | 0 <= i < |q|
      ensures Sub(k.rcv_nxt, q[i].sn) == |q| - i
    {
      assert q[i] == k.rcv_queue[n + i];
    }
  }

  lemma RefillKeeps(k: Kcp, wasFull: bool)
    requires ConfigOk(k) && SendSide(k) && ReceiveSide(k)
    ensures var k' := Refilled(k, wasFull);
            Inv(k') && SameConfig(k, k') && SameSend(k, k')
  {
    MoveReadyKeeps(k);
    SideTransfer(k, MoveReady(k));
    SideTransfer(MoveReady(k), Refilled(k, wasFull));
  }

  lemma TakeKeeps(k: Kcp, len: int)
    requires Inv(k) && RecvSucceeds(k, len)
    ensures var k' := Refilled(Unlinked(k, len), k.nrcv_que >= k.rcv_wnd);
            Inv(k') && SameConfig(k, k') && SameSend(k, k')
  {
    var k1 := Unlinked(k, len);
    UnlinkKeeps(k, Span(k.rcv_queue));
    SideTransfer(k, k1);
    RefillKeeps(k1, k.nrcv_que >= k.rcv_wnd);
  }

  lemma RecvState(k: Kcp, len: int)
    ensures Recv(k, len).0 ==
            if RecvSucceeds(k, len) then Refilled(Unlinked(k, len), k.nrcv_que >= k.rcv_wnd) else k
  {
  }

  lemma RecvKeeps(k: Kcp, len: int)
    requires Inv(k)
    ensures var k' := Recv(k, len).0;
            Inv(k') && SameConfig(k, k') && SameSend(k, k')
  {
    RecvState(k, len);
    if RecvSucceeds(k, len) { TakeKeeps(k, len); }
  }

  // ---- flushing ----

  lemma {:induction false} AdmitKeeps(k: Kcp, cwnd: u32)
    requires ConfigOk(k) && SendSide(k) && cwnd <= k.snd_wnd
    ensures var k' := Admit(k, cwnd);
            SendSide(k') && SameConfig(k, k') && SameReceive(k, k') && k'.snd_una == k.snd_una
            && k'.acklist == k.acklist && k'.ctl == k.ctl
    decreases |k.snd_queue|
  {
    if Diff(k.snd_nxt, Add(k.snd_una, cwnd)) < 0 && k.snd_queue != [] {
      assert Sub(k.snd_nxt, k.snd_una) < cwnd;
      AdmitKeeps(AdmitOne(k), cwnd);
    }
  }

  lemma {:induction false} SweepShape(k: Kcp, buf: seq<Seg>)
    ensures var w := SweepAll(k, buf);
            |w.buf| == |buf| && forall i :: 0 <= i < |buf| ==> w.buf[i] == Transmit(k, buf[i])
  {
    if buf == [] {
    } else {
      SweepShape(k, buf[..|buf| - 1]);
    }
  }

  /** Where a transmitted segment came from. */
  lemma {:induction false} SweepOut(k: Kcp, buf: seq<Seg>, s: Seg) returns (i: nat)
    requires s in SweepAll(k, buf).out
    ensures i < |buf| && !Why(k, buf[i]).Hold? && s == Transmit(k, buf[i])
  {
    var n := |buf| - 1;
    if s in SweepAll(k, buf[..n]).out {
      i := SweepOut(k, buf[..n], s);
    } else {
      i := n;
    }
  }

  lemma {:induction false} SweepKeeps(k: Kcp, ctl: Ctl)
    requires Inv(k)
    ensures var k' := k.(snd_buf := SweepAll(k, k.snd_buf).buf, ctl := ctl); Inv(k')
  {
    var k1 := k.(snd_buf := SweepAll(k, k.snd_buf).buf);
    SweepSends(k);
    SideTransfer(k, k1);
    SideTransfer(k1, k1.(ctl := ctl));
  }

  lemma {:induction false} SweepSends(k: Kcp)
    requires SendSide(k)
    ensures SendSide(k.(snd_buf := SweepAll(k, k.snd_buf).buf))
  {
    SweepShape(k, k.snd_buf);
    SameShapeKeeps(k, SweepAll(k, k.snd_buf).buf);
  }

  lemma ProbedKeeps(k: Kcp)
    requires Inv(k)
    ensures var k' := Probed(k);
            Inv(k') && SameConfig(k, k') && SameReceive(k, k') && SameSend(k, k')
  {
    SideTransfer(k, Probed(k));
  }

  lemma {:induction false} AdmitKeepsAll(k: Kcp, cwnd: u32)
    requires Inv(k) && cwnd <= k.snd_wnd
    ensures var k' := Admit(k, cwnd);
            Inv(k') && SameConfig(k, k') && SameReceive(k, k') && k'.snd_una == k.snd_una
  {
    AdmitKeeps(k, cwnd);
    SideTransfer(k, Admit(k, cwnd));
  }

  lemma ReadyKeeps(k: Kcp)
    requires Inv(k)
    ensures var k' := ReadyToSend(k);
            Inv(k') && SameConfig(k, k') && SameReceive(k, k') && k'.snd_una == k.snd_una
  {
    ProbedKeeps(k);
    AdmitKeepsAll(Probed(k), EffectiveWnd(k));
  }

  lemma FlushKeeps(k: Kcp)
    requires Inv(k)
    ensures var k' := Flush(k).0;
            Inv(k') && SameConfig(k, k') && SameReceive(k, k') && k'.snd_una == k.snd_una
  {
    if k.updated {
      ReadyKeeps(k);
      var k1 := ReadyToSend(k);
      SweepKeeps(k1, Flush(k).0.ctl);
    }
  }

  lemma UpdateKeeps(k: Kcp, now: u32)
    requires Inv(k)
    ensures var k' := Update(k, now).0;
            Inv(k') && SameConfig(k, k') && SameReceive(k, k') && k'.snd_una == k.snd_una
  {
    SideTransfer(k, Ticked(k, now));
    if Due(k, now) { FlushKeeps(Ticked(k, now)); }
  }

  // ---- what a flush puts on the wire ----

  /** A segment that can travel in a packet of its own. */
  ghost predicate Fits(s: Seg, k: Kcp)
  {
    && Sendable(s, k.conv) && OVERHEAD + |s.data| <= k.mtu
    && s.frg < 256 && s.wnd == Unused(k) && s.una == k.rcv_nxt
  }

  lemma TransmitFits(k: Kcp, k1: Kcp, s: Seg)
    requires ConfigOk(k1) && SameConfig(k, k1) && SameReceive(k, k1) && !Why(k1, s).Hold?
    requires |s.data| <= k1.mss && s.frg < WND_RCV && s.conv == k1.conv && s.cmd == CMD_PUSH
    ensures Fits(Transmit(k1, s), k)
  {
  }

  lemma FlushSegsFit(k: Kcp, s: Seg)
    requires Inv(k) && s in FlushSegs(k)
    ensures Fits(s, k)
  {
    ReadyKeeps(k);
    var k1 := ReadyToSend(k);
    if s in AckSegs(k) + ProbeSegs(k) {
    } else {
      var i := SweepOut(k1, k1.snd_buf, s);
      assert k1.snd_buf[i] in k1.snd_buf;
      TransmitFits(k, k1, k1.snd_buf[i]);
    }
  }

  /** Every packet of a flush is nonempty and at most mtu bytes, and the decode loop of
      ikcp_input, fed the packets in order, recovers the acknowledgements, probes and data
      segments that were flushed, in order and with their payloads. */
  lemma FlushOnTheWire(k: Kcp)
    requires Inv(k) && k.updated
    ensures forall p :: p in Flush(k).1 ==> GoodPacket(p, k.conv, k.mtu)
    ensures DecodePackets(Flush(k).1, k.conv) == AllOnWire(FlushSegs(k))
  {
    forall s | s in FlushSegs(k)
      ensures Sendable(s, k.conv) && OVERHEAD + |s.data| <= k.mtu
    {
      FlushSegsFit(k, s);
    }
    PacketsCorrect(FlushSegs(k), k.conv, k.mtu);
  }

  /** A decoded segment carries the header and payload it was sent with. */
  ghost predicate Intact(sent: Seg, got: Seg)
  {
    got.(resendts := sent.resendts, rto := sent.rto, fastack := sent.fastack, xmit := sent.xmit) == sent
  }

  /** The headers arrive intact exactly when the free receive window fits 16 bits: a receiver
      with 65536 or more free slots advertises that number modulo 65536. */
  lemma HeadersIntact(k: Kcp)
    requires Inv(k) && k.updated && FlushSegs(k) != []
    ensures var got := DecodePackets(Flush(k).1, k.conv);
            && |got| == |FlushSegs(k)|
            && ((forall i :: 0 <= i < |got| ==> Intact(FlushSegs(k)[i], got[i])) <==> Unused(k) < 0x1_0000)
  {
    FlushOnTheWire(k);
    var got := AllOnWire(FlushSegs(k));
    forall i | 0 <= i < |got|
      ensures Intact(FlushSegs(k)[i], got[i]) <==> Unused(k) < 0x1_0000
    {
      FlushSegsFit(k, FlushSegs(k)[i]);
      HeaderIntact(FlushSegs(k)[i]);
    }
    assert Intact(FlushSegs(k)[0], got[0]) <==> Unused(k) < 0x1_0000;
  }

  /** The timing state ikcp_create starts with. */
  const FIRST_CTL := Ctl(2, 0, 0, 0, 0, 200, 100, 0, 0, 5, false, 0, 0, 0, 20, false)

  /** The packet of a peer that asks for the window. */
  const WINDOW_ASKED: Seg := Seg(1, CMD_WASK, 0, 128, 0, 0, 0, 0, 0, 0, 0, [])

  lemma AskedState(k: Kcp)
    requires k == Create(1, 1376, false, 32, 0x1_0000, FIRST_CTL)
    ensures Input(k, EncodeSeg(WINDOW_ASKED)) == (k.(askTell := true), 0)
  {
    AskedDecoded();
    AskedProcessed(k);
    assert ProcessAll(k, [WINDOW_ASKED]) == ProcessAll(k.(askTell := true), []);
  }

  lemma AskedDecoded()
    ensures Decode(EncodeSeg(WINDOW_ASKED), 1) == Decoded([WINDOW_ASKED], 0)
  {
    DecodeEncodeAll([WINDOW_ASKED], 1);
    assert EncodeAll([WINDOW_ASKED]) == EncodeSeg(WINDOW_ASKED) + EncodeAll([]) == EncodeSeg(WINDOW_ASKED);
    assert AllOnWire([WINDOW_ASKED]) == [OnWire(WINDOW_ASKED)];
    assert OnWire(WINDOW_ASKED) == WINDOW_ASKED;
  }

  lemma AskedProcessed(k: Kcp)
    requires k.snd_buf == [] && k.snd_una == k.snd_nxt && k.rmt_wnd == 128
    ensures ProcessSeg(k, WINDOW_ASKED) == k.(askTell := true)
  {
  }

  /** An endpoint with nothing to send or acknowledge that owes its peer its window. */
  lemma OnlyTells(k: Kcp)
    requires k.snd_queue == [] && k.snd_buf == [] && k.acklist == [] && k.rmt_wnd != 0 && k.askTell && !k.askSend
    ensures FlushSegs(k) == [ControlSeg(k, CMD_WINS, 0, 0)]
  {
    assert AckSegs(k) == [];
    assert ProbeSegs(k) == [ControlSeg(k, CMD_WINS, 0, 0)];
    assert ReadyToSend(k).snd_buf == [];
  }

  lemma TellsNoRoom(k: Kcp)
    requires Inv(k) && k.updated && FlushSegs(k) == [ControlSeg(k, CMD_WINS, 0, 0)] && Unused(k) == 0x1_0000
    ensures Flush(k).1 != []
    ensures exists s :: DecodePackets(Flush(k).1, k.conv) == [s] && s.cmd == CMD_WINS && s.wnd == 0
  {
    FlushOnTheWire(k);
    var s := OnWire(ControlSeg(k, CMD_WINS, 0, 0));
    assert AllOnWire(FlushSegs(k)) == [s];
    assert s.cmd == CMD_WINS && s.wnd == 0;
  }

  /** Concretely: a new endpoint with a receive window of 65536 segments, asked for its window by
      the peer, answers at its first update with a single segment, and that segment says it has
      no room at all. */
  lemma WideWindowLooksClosed()
    ensures var k := Input(Create(1, 1376, false, 32, 0x1_0000, FIRST_CTL), EncodeSeg(WINDOW_ASKED)).0;
            && Inv(k) && Unused(k) == 0x1_0000 && Update(k, 0).1 != []
            && exists s :: DecodePackets(Update(k, 0).1, 1) == [s] && s.cmd == CMD_WINS && s.wnd == 0
  {
    var k0 := Create(1, 1376, false, 32, 0x1_0000, FIRST_CTL);
    AskedState(k0);
    var k := Input(k0, EncodeSeg(WINDOW_ASKED)).0;
    InputKeeps(k0, EncodeSeg(WINDOW_ASKED));
    SideTransfer(k, Ticked(k, 0));
    OnlyTells(Ticked(k, 0));
    TellsNoRoom(Ticked(k, 0));
  }

  // ---- any run of one endpoint ----

  /** What can happen to an endpoint: its application, its clock, its tuning, or any bytes at all. */
  datatype Event =
    | DoSend(msg: seq<byte>)
    | DoRecv(len: int)
    | DoInput(bytes: seq<byte>)
    | DoUpdate(now: u32)
    | DoTune(ctl: Ctl, interval: u32)

  function Apply(k: Kcp, e: Event): Kcp
  {
    if k.mss <= 0 then k
    else
      match e
      case DoSend(m) => Send(k, m).0
      case DoRecv(len) => Recv(k, len).0
      case DoInput(b) => Input(k, b).0
      case DoUpdate(now) => Update(k, now).0
      case DoTune(c, i) => k.(ctl := c, interval := i)
  }

  function ApplyAll(k: Kcp, es: seq<Event>): Kcp
  {
    if es == [] then k else Apply(ApplyAll(k, es[..|es| - 1]), es[|es| - 1])
  }

  /** One event keeps the whole invariant and never moves snd_una backwards. */
  lemma ApplyKeeps(k: Kcp, e: Event)
    requires Inv(k)
    ensures Inv(Apply(k, e)) && UnaAdvances(k, Apply(k, e))
  {
    match e
    case DoSend(m) => SendKept(k, m);
    case DoRecv(len) => RecvKept(k, len);
    case DoInput(b) => InputKept(k, b);
    case DoUpdate(now) => UpdateKept(k, now);
    case DoTune(c, i) => SideTransfer(k, k.(ctl := c, interval := i));
  }

  lemma SendKept(k: Kcp, m: seq<byte>)
    requires Inv(k)
    ensures Inv(Apply(k, DoSend(m))) && UnaAdvances(k, Apply(k, DoSend(m)))
  {
    SendKeeps(k, m);
  }

  lemma RecvKept(k: Kcp, len: int)
    requires Inv(k)
    ensures Inv(Apply(k, DoRecv(len))) && UnaAdvances(k, Apply(k, DoRecv(len)))
  {
    RecvKeeps(k, len);
  }

  lemma InputKept(k: Kcp, b: seq<byte>)
    requires Inv(k)
    ensures Inv(Apply(k, DoInput(b))) && UnaAdvances(k, Apply(k, DoInput(b)))
  {
    InputKeeps(k, b);
  }

  lemma UpdateKept(k: Kcp, now: u32)
    requires Inv(k)
    ensures Inv(Apply(k, DoUpdate(now))) && UnaAdvances(k, Apply(k, DoUpdate(now)))
  {
    UpdateKeeps(k, now);
  }

  /** In every state an endpoint can reach from ikcp_create, under any events whatever: the send
      window, the receive window, the contiguous receive queue and the four counters are right. */
  lemma {:induction false} EveryRunKeeps(conv: u32, mss: int, stream: bool, snd_wnd: u32, rcv_wnd: u32, ctl: Ctl,
                                         es: seq<Event>)
    requires 0 < mss && mss + OVERHEAD < HALF && 0 < snd_wnd < HALF && 0 < rcv_wnd < HALF
    ensures Inv(ApplyAll(Create(conv, mss, stream, snd_wnd, rcv_wnd, ctl), es))
  {
    if es == [] {
    } else {
      EveryRunKeeps(conv, mss, stream, snd_wnd, rcv_wnd, ctl, es[..|es| - 1]);
      ApplyKeeps(ApplyAll(Create(conv, mss, stream, snd_wnd, rcv_wnd, ctl), es[..|es| - 1]), es[|es| - 1]);
    }
  }
}
