/** What ikcp_recv answers: which return value in which state of the next message, and what it takes. */
module KcpReceive {
  import opened U32
  import opened KcpWire
  import opened KcpModel
  import opened KcpLocal
  import opened KcpInput
  import opened KcpSystem

  /** The room a call of ikcp_recv offers; a negative length only peeks. */
  function Room(len: int): nat { if len < 0 then -len else len }

  /** Of the peer's next message all fragments are queued. */
  ghost predicate NextWhole(x: Half, y: Half)
    requires y.k.mss > 0
  {
    x.k.rcv_queue != [] && |x.rcvd| < |y.sent| && |x.k.rcv_queue| >= FragCount(|y.sent[|x.rcvd|]|, y.k.mss)
  }

  lemma PeekExact(x: Half, y: Half)
    requires Inv(x.k) && RecvOk(x.k, y.log) && MsgsOk(y, x)
    ensures x.k.rcv_queue != [] ==> |x.rcvd| < |y.sent|
    ensures PeekSize(x.k) == if NextWhole(x, y) then |y.sent[|x.rcvd|]| else -1
    ensures NextWhole(x, y) ==> FirstMessage(x.k.rcv_queue) == y.sent[|x.rcvd|]
  {
    var q := x.k.rcv_queue;
    if q != [] {
      NextMessageQueued(x, y);
      var m := y.sent[|x.rcvd|];
      FragmentsCount(m, y.k.mss, false);
      FragmentsCountDown(m, y.k.mss);
      assert FragOf(q[0]) == MsgFrags(m, y.k.mss)[0];
      if NextWhole(x, y) {
        WholeMessage(q, m, y.k.mss);
      }
    }
  }

  /** ikcp_recv returns -1 if nothing is queued, -2 if a fragment of the next message is missing, -3 if
      there is no room for it, and otherwise its size, with the message itself. */
  lemma RecvExact(x: Half, y: Half, len: int)
    requires Inv(x.k) && RecvOk(x.k, y.log) && MsgsOk(y, x)
    ensures var r := Recv(x.k, len);
            if x.k.rcv_queue == [] then r == (x.k, -1, [])
            else if !NextWhole(x, y) then r == (x.k, -2, [])
            else if |y.sent[|x.rcvd|]| > Room(len) then r == (x.k, -3, [])
            else r.1 == |y.sent[|x.rcvd|]| && r.2 == y.sent[|x.rcvd|]
  {
    PeekExact(x, y);
  }

  /** How many segments the first message of a queue has: up to the first of fragment number 0. */
  ghost predicate FirstEnds(q: seq<Seg>, n: nat)
  {
    0 < n <= |q| && q[n - 1].frg == 0 && forall i :: 0 <= i < n - 1 ==> q[i].frg != 0
  }

  lemma {:induction false} SpanEnds(q: seq<Seg>, n: nat)
    requires FirstEnds(q, n)
    ensures Span(q) == n
  {
    if n > 1 {
      SpanEnds(q[1..], n - 1);
    }
  }

  /** A successful call that does not peek takes out that message's segments and nothing else; what is
      waiting moves up; the peer is told of the room if there had been none. */
  lemma RecvLeaves(k: Kcp, len: int, n: nat)
    requires Inv(k) && FirstEnds(k.rcv_queue, n) && Recv(k, len).1 >= 0
    ensures var k' := Recv(k, len).0;
            && Inv(k') && Stored(k') == (if len < 0 then Stored(k) else Stored(k)[n..])
            && k'.askTell == (k.askTell || (|k.rcv_queue| >= k.rcv_wnd && |k'.rcv_queue| < k.rcv_wnd))
            && k' == k.(rcv_queue := k'.rcv_queue, nrcv_que := k'.nrcv_que, rcv_buf := k'.rcv_buf,
                        nrcv_buf := k'.nrcv_buf, rcv_nxt := k'.rcv_nxt, askTell := k'.askTell)
  {
    SpanEnds(k.rcv_queue, n);
    Succeeded(k, len);
    RecvKeeps(k, len);
    RefillLeaves(Unlinked(k, len), k.nrcv_que >= k.rcv_wnd);
    UnlinkedStored(k, len);
  }

  lemma UnlinkedStored(k: Kcp, len: int)
    ensures Stored(Unlinked(k, len)) == if len < 0 then Stored(k) else Stored(k)[Span(k.rcv_queue)..]
  {
  }

  lemma Succeeded(k: Kcp, len: int)
    requires Recv(k, len).1 >= 0
    ensures RecvSucceeds(k, len) && Recv(k, len).0 == Refilled(Unlinked(k, len), k.nrcv_que >= k.rcv_wnd)
  {
  }

  lemma RefillLeaves(k: Kcp, wasFull: bool)
    ensures var k' := Refilled(k, wasFull);
            && Stored(k') == Stored(k) && k'.askTell == (k.askTell || (wasFull && k'.nrcv_que < k'.rcv_wnd))
            && k' == k.(rcv_queue := k'.rcv_queue, nrcv_que := k'.nrcv_que, rcv_buf := k'.rcv_buf,
                        nrcv_buf := k'.nrcv_buf, rcv_nxt := k'.rcv_nxt, askTell := k'.askTell)
  {
    MovesOnly(k);
    MovesSame(k);
  }

  /** A call that fails changes nothing. */
  lemma RecvFails(k: Kcp, len: int)
    requires Recv(k, len).1 < 0
    ensures Recv(k, len).0 == k
  {
  }
}
