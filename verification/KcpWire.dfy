/** The KCP segment and its wire form: a 24-byte little-endian header followed by the payload. */
module KcpWire {
  import opened U32
  import Seqs

  const CMD_PUSH: u32 := 81
  const CMD_ACK: u32 := 82
  const CMD_WASK: u32 := 83
  const CMD_WINS: u32 := 84
  const OVERHEAD: int := 24

  /** IKCPSEG; `len` is the length of `data`. The last four fields before `data` never travel. */
  datatype Seg = Seg(conv: u32, cmd: u32, frg: u32, wnd: u32, ts: u32, sn: u32, una: u32,
                     resendts: u32, rto: u32, fastack: u32, xmit: u32, data: seq<byte>)

  function Enc16(w: u32): (b: seq<byte>)
    requires w < 0x1_0000
  {
    [w % 256, w / 256]
  }

  function Enc32(x: u32): (b: seq<byte>)
  {
    [x % 256, x / 0x100 % 256, x / 0x1_0000 % 256, x / 0x100_0000]
  }

  function Dec16(b: seq<byte>, at: nat): u32
    requires at + 2 <= |b|
  {
    b[at] as int + 0x100 * (b[at + 1] as int)
  }

  function Dec32(b: seq<byte>, at: nat): u32
    requires at + 4 <= |b|
  {
    b[at] as int + 0x100 * (b[at + 1] as int) + 0x1_0000 * (b[at + 2] as int) + 0x100_0000 * (b[at + 3] as int)
  }

  /** The four base-256 digits of a 32-bit number. */
  lemma Digits(x: u32)
    ensures x == x % 256 + 0x100 * (x / 0x100 % 256) + 0x1_0000 * (x / 0x1_0000 % 256) + 0x100_0000 * (x / 0x100_0000)
  {
    assert x / 0x1_0000 == x / 0x100 / 0x100;
    assert x / 0x100_0000 == x / 0x1_0000 / 0x100;
  }

  lemma Dec32At(b: seq<byte>, at: nat, x: u32)
    requires at + 4 <= |b| && b[at..at + 4] == Enc32(x)
    ensures Dec32(b, at) == x
  {
    var c := b[at..at + 4];
    assert b[at] == c[0] && b[at + 1] == c[1] && b[at + 2] == c[2] && b[at + 3] == c[3];
    Digits(x);
  }

  /** The header fields that travel, with the announced payload length. */
  datatype Header = Header(conv: u32, cmd: u32, frg: u32, wnd: u32, ts: u32, sn: u32, una: u32, len: u32)

  predicate HeaderFits(h: Header) { h.cmd < 256 && h.frg < 256 && h.wnd < 0x1_0000 }

  function HeaderBytes(h: Header): (b: seq<byte>)
    requires HeaderFits(h)
    ensures |b| == OVERHEAD
  {
    Enc32(h.conv) + [h.cmd, h.frg] + Enc16(h.wnd) + Enc32(h.ts) + Enc32(h.sn) + Enc32(h.una) + Enc32(h.len)
  }

  /** cmd and frg are cut to one byte, wnd to two. */
  function OwnHeader(s: Seg): (h: Header)
    ensures HeaderFits(h)
  {
    Header(s.conv, s.cmd % 256, s.frg % 256, s.wnd % 0x1_0000, s.ts, s.sn, s.una, Wrap(|s.data|))
  }

  /** What ikcp_encode_seg writes. */
  function EncodeHeader(s: Seg): (b: seq<byte>)
    ensures |b| == OVERHEAD
  {
    HeaderBytes(OwnHeader(s))
  }

  function EncodeSeg(s: Seg): (b: seq<byte>)
    ensures |b| == OVERHEAD + |s.data|
  {
    EncodeHeader(s) + s.data
  }

  /** The part of a segment that survives the wire. */
  function OnWire(s: Seg): Seg
  {
    Seg(s.conv, s.cmd % 256, s.frg % 256, s.wnd % 0x1_0000, s.ts, s.sn, s.una, 0, 0, 0, 0, s.data)
  }

  /** What ikcp_input reads. */
  function DecodeHeader(b: seq<byte>): Header
    requires |b| >= OVERHEAD
  {
    Header(Dec32(b, 0), b[4], b[5], Dec16(b, 6), Dec32(b, 8), Dec32(b, 12), Dec32(b, 16), Dec32(b, 20))
  }

  predicate KnownCmd(cmd: u32) { cmd == CMD_PUSH || cmd == CMD_ACK || cmd == CMD_WASK || cmd == CMD_WINS }

  /** The checks ikcp_input makes on one header before acting on it: 0, or its error return. */
  function HeaderError(h: Header, conv: u32, rest: int): int
  {
    if h.conv != conv then -1
    else if rest < h.len || h.len >= HALF then -2
    else if !KnownCmd(h.cmd) then -3
    else 0
  }

  function SegOf(h: Header, data: seq<byte>): Seg
  {
    Seg(h.conv, h.cmd, h.frg, h.wnd, h.ts, h.sn, h.una, 0, 0, 0, 0, data)
  }

  /** Every segment of a packet that ikcp_input reaches, and how its loop ends. */
  datatype Decoded = Decoded(segs: seq<Seg>, err: int)

  function Decode(b: seq<byte>, conv: u32): (d: Decoded)
    ensures forall s :: s in d.segs ==> s.conv == conv && KnownCmd(s.cmd)
    decreases |b|
  {
    if |b| < OVERHEAD then Decoded([], 0)
    else
      var h := DecodeHeader(b);
      var err := HeaderError(h, conv, |b| - OVERHEAD);
      if err != 0 then Decoded([], err)
      else
        var rest := Decode(b[OVERHEAD + h.len..], conv);
        Decoded([SegOf(h, b[OVERHEAD..OVERHEAD + h.len])] + rest.segs, rest.err)
  }

  /** A segment this side may put on the wire. */
  ghost predicate Sendable(s: Seg, conv: u32)
  {
    s.conv == conv && KnownCmd(s.cmd) && |s.data| < HALF
  }

  function EncodeAll(segs: seq<Seg>): (b: seq<byte>)
    ensures segs != [] ==> |b| >= OVERHEAD
  {
    if segs == [] then [] else EncodeSeg(segs[0]) + EncodeAll(segs[1..])
  }

  function AllOnWire(segs: seq<Seg>): (r: seq<Seg>)
    ensures |r| == |segs| && forall i :: 0 <= i < |segs| ==> r[i] == OnWire(segs[i])
  {
    seq(|segs|, i requires 0 <= i < |segs| => OnWire(segs[i]))
  }

  /** What four bytes say, the least significant first. */
  function Little(b: seq<byte>, at: nat): int
    requires at + 4 <= |b|
  {
    b[at] as int + 256 * (b[at + 1] as int + 256 * (b[at + 2] as int + 256 * (b[at + 3] as int)))
  }

  /** Where the fields of a header are: conv at 0, cmd at 4, frg at 5, wnd at 6, ts at 8, sn at 12, una at 16
      and the length at 20, the least significant byte first. */
  lemma HeaderLayout(h: Header)
    requires HeaderFits(h)
    ensures var b := HeaderBytes(h);
            && Little(b, 0) == h.conv && b[4] == h.cmd && b[5] == h.frg && b[6] as int + 256 * (b[7] as int) == h.wnd
            && Little(b, 8) == h.ts && Little(b, 12) == h.sn && Little(b, 16) == h.una && Little(b, 20) == h.len
  {
    var b := HeaderBytes(h);
    assert b[0..4] == Enc32(h.conv);
    assert b[6..8] == Enc16(h.wnd);
    assert b[6] == b[6..8][0] && b[7] == b[6..8][1];
    assert b[8..12] == Enc32(h.ts);
    assert b[12..16] == Enc32(h.sn);
    assert b[16..20] == Enc32(h.una);
    assert b[20..24] == Enc32(h.len);
    LittleAt(b, 0, h.conv);
    LittleAt(b, 8, h.ts);
    LittleAt(b, 12, h.sn);
    LittleAt(b, 16, h.una);
    LittleAt(b, 20, h.len);
  }

  lemma LittleAt(b: seq<byte>, at: nat, x: u32)
    requires at + 4 <= |b| && b[at..at + 4] == Enc32(x)
    ensures Little(b, at) == x && Dec32(b, at) == x
  {
    Dec32At(b, at, x);
  }

  lemma DecodeHeaderBytes(h: Header)
    requires HeaderFits(h)
    ensures DecodeHeader(HeaderBytes(h)) == h
  {
    HeaderLayout(h);
  }

  lemma DecodeHeaderPrefix(h: seq<byte>, rest: seq<byte>)
    requires |h| == OVERHEAD
    ensures DecodeHeader(h + rest) == DecodeHeader(h)
  {
  }

  lemma FirstParts(s: Seg, post: seq<byte>)
    ensures var b := EncodeSeg(s) + post;
            && DecodeHeader(b) == OwnHeader(s) && b[OVERHEAD..OVERHEAD + |s.data|] == s.data
            && b[OVERHEAD + |s.data|..] == post
  {
    var hd := EncodeHeader(s);
    assert EncodeSeg(s) + post == hd + (s.data + post);
    DecodeHeaderBytes(OwnHeader(s));
    DecodeHeaderPrefix(hd, s.data + post);
  }

  lemma {:induction false} DecodeFirst(s: Seg, post: seq<byte>, conv: u32)
    requires Sendable(s, conv)
    ensures Decode(EncodeSeg(s) + post, conv) ==
            Decoded([OnWire(s)] + Decode(post, conv).segs, Decode(post, conv).err)
  {
    var b := EncodeSeg(s) + post;
    FirstParts(s, post);
    var h := DecodeHeader(b);
    assert h.len == |s.data| && h.cmd == s.cmd;
    assert HeaderError(h, conv, |b| - OVERHEAD) == 0;
    assert SegOf(h, s.data) == OnWire(s);
    var d := Decode(post, conv);
    assert Decode(b, conv) == Decoded([SegOf(h, b[OVERHEAD..OVERHEAD + h.len])] + d.segs, d.err);
  }

  /** Round trip: the decode loop of ikcp_input, fed the bytes ikcp_flush wrote for a list of
      segments, recovers exactly that list. */
  lemma {:induction false} DecodeEncodeAll(segs: seq<Seg>, conv: u32)
    requires forall s :: s in segs ==> Sendable(s, conv)
    ensures Decode(EncodeAll(segs), conv) == Decoded(AllOnWire(segs), 0)
  {
    if segs == [] {
    } else {
      DecodeFirst(segs[0], EncodeAll(segs[1..]), conv);
      DecodeEncodeAll(segs[1..], conv);
      assert AllOnWire(segs) == [OnWire(segs[0])] + AllOnWire(segs[1..]);
    }
  }

  /** Good segments come out whatever follows them. */
  lemma {:induction false} DecodeGood(segs: seq<Seg>, post: seq<byte>, conv: u32)
    requires forall s :: s in segs ==> Sendable(s, conv)
    ensures Decode(EncodeAll(segs) + post, conv) ==
            Decoded(AllOnWire(segs) + Decode(post, conv).segs, Decode(post, conv).err)
  {
    if segs == [] {
      assert EncodeAll(segs) + post == post;
    } else {
      var more := EncodeAll(segs[1..]) + post;
      DecodeGood(segs[1..], post, conv);
      DecodeFirst(segs[0], more, conv);
      Seqs.Assoc(EncodeSeg(segs[0]), EncodeAll(segs[1..]), post);
      Seqs.Assoc([OnWire(segs[0])], AllOnWire(segs[1..]), Decode(post, conv).segs);
      assert AllOnWire(segs) == [OnWire(segs[0])] + AllOnWire(segs[1..]);
    }
  }

  /** Behind good segments a header is refused for another conversation with -1, for announcing more
      data than follows, or 2^31 bytes and more, with -2, and for an unknown command with -3; fewer than 24
      bytes are ignored. The good segments count in every case. */
  lemma {:induction false} DecodeRefuses(segs: seq<Seg>, h: Header, rest: seq<byte>, conv: u32)
    requires (forall s :: s in segs ==> Sendable(s, conv)) && HeaderFits(h)
    ensures var d := Decode(EncodeAll(segs) + (HeaderBytes(h) + rest), conv);
            && (h.conv != conv ==> d == Decoded(AllOnWire(segs), -1))
            && (h.conv == conv && (h.len > |rest| || h.len >= HALF) ==> d == Decoded(AllOnWire(segs), -2))
            && (h.conv == conv && h.len <= |rest| && h.len < HALF && h.cmd !in {81, 82, 83, 84} ==>
                  d == Decoded(AllOnWire(segs), -3))
    ensures |rest| < 24 ==> Decode(EncodeAll(segs) + rest, conv) == Decoded(AllOnWire(segs), 0)
  {
    var b := HeaderBytes(h) + rest;
    DecodeGood(segs, b, conv);
    DecodeGood(segs, rest, conv);
    DecodeHeaderBytes(h);
    DecodeHeaderPrefix(HeaderBytes(h), rest);
    assert AllOnWire(segs) + [] == AllOnWire(segs);
  }

  /** A segment keeps its header unchanged on the wire exactly when its advertised window fits
      16 bits and its fragment number 8: ikcp_encode_seg truncates both without checking. */
  lemma HeaderIntact(s: Seg)
    requires KnownCmd(s.cmd)
    ensures OnWire(s).(resendts := s.resendts, rto := s.rto, fastack := s.fastack, xmit := s.xmit) == s
            <==> s.wnd < 0x1_0000 && s.frg < 256
  {
  }

  // ---- packing segments into packets of at most mtu bytes ----

  /** The output so far: packets handed to the network, and the unsent bytes in the buffer,
      together with the segments each of them holds. */
  datatype Packing = Packing(packets: seq<seq<byte>>, cur: seq<byte>)

  /** Append one encoded item, handing the buffer to the network first when it would overflow.
      An empty buffer is never handed over (ikcp_output ignores size 0). */
  function PackOne(p: Packing, item: seq<byte>, mtu: int): Packing
  {
    if |p.cur| + |item| > mtu then
      Packing(if p.cur == [] then p.packets else p.packets + [p.cur], item)
    else Packing(p.packets, p.cur + item)
  }

  function PackAll(p: Packing, segs: seq<Seg>, mtu: int): Packing
    decreases |segs|
  {
    if segs == [] then p
    else PackAll(PackOne(p, EncodeSeg(segs[0]), mtu), segs[1..], mtu)
  }

  function Close(p: Packing): seq<seq<byte>>
  {
    if p.cur == [] then p.packets else p.packets + [p.cur]
  }

  /** The packets ikcp_flush outputs for a list of segments. */
  function Packets(segs: seq<Seg>, mtu: int): seq<seq<byte>>
  {
    Close(PackAll(Packing([], []), segs, mtu))
  }

  lemma {:induction false} PackAllAppend(p: Packing, a: seq<Seg>, b: seq<Seg>, mtu: int)
    ensures PackAll(p, a + b, mtu) == PackAll(PackAll(p, a, mtu), b, mtu)
    decreases |a|
  {
    if a == [] {
      assert a + b == b;
    } else {
      assert (a + b)[0] == a[0] && (a + b)[1..] == a[1..] + b;
      PackAllAppend(PackOne(p, EncodeSeg(a[0]), mtu), a[1..], b, mtu);
    }
  }

  /** Decoding packets one after another and concatenating what they hold. */
  function DecodePackets(ps: seq<seq<byte>>, conv: u32): seq<Seg>
  {
    if ps == [] then [] else Decode(ps[0], conv).segs + DecodePackets(ps[1..], conv)
  }

  lemma {:induction false} DecodePacketsSnoc(ps: seq<seq<byte>>, p: seq<byte>, conv: u32)
    ensures DecodePackets(ps + [p], conv) == DecodePackets(ps, conv) + Decode(p, conv).segs
  {
    if ps == [] {
      assert ps + [p] == [p];
      assert DecodePackets([p], conv) == Decode(p, conv).segs + DecodePackets([], conv);
    } else {
      assert (ps + [p])[1..] == ps[1..] + [p];
      DecodePacketsSnoc(ps[1..], p, conv);
    }
  }

  lemma {:induction false} EncodeAllSnoc(segs: seq<Seg>, s: Seg)
    ensures EncodeAll(segs + [s]) == EncodeAll(segs) + EncodeSeg(s)
  {
    if segs == [] {
      assert segs + [s] == [s];
      assert EncodeAll([s]) == EncodeSeg(s) + EncodeAll([]);
    } else {
      assert (segs + [s])[0] == segs[0] && (segs + [s])[1..] == segs[1..] + [s];
      EncodeAllSnoc(segs[1..], s);
    }
  }

  /** A packet the network may carry: nonempty, within the mtu, and decoding without error. */
  ghost predicate GoodPacket(p: seq<byte>, conv: u32, mtu: int)
  {
    0 < |p| <= mtu && Decode(p, conv).err == 0
  }

  /** What the packing loop keeps: `open` are the segments in the buffer, and the packets
      already out together with `open` are exactly the segments given so far. */
  ghost predicate PackInv(p: Packing, open: seq<Seg>, done: seq<Seg>, conv: u32, mtu: int)
  {
    && (forall q :: q in p.packets ==> GoodPacket(q, conv, mtu))
    && (forall s :: s in open ==> Sendable(s, conv))
    && p.cur == EncodeAll(open) && |p.cur| <= mtu
    && DecodePackets(p.packets, conv) + AllOnWire(open) == AllOnWire(done)
  }

  lemma {:induction false} CloseKeeps(p: Packing, open: seq<Seg>, done: seq<Seg>, conv: u32, mtu: int)
    requires PackInv(p, open, done, conv, mtu)
    ensures forall q :: q in Close(p) ==> GoodPacket(q, conv, mtu)
    ensures DecodePackets(Close(p), conv) == AllOnWire(done)
  {
    DecodeEncodeAll(open, conv);
    if p.cur == [] {
      assert AllOnWire(open) == [];
    } else {
      DecodePacketsSnoc(p.packets, p.cur, conv);
    }
  }

  lemma PackOneInv(p: Packing, open: seq<Seg>, done: seq<Seg>, s: Seg, conv: u32, mtu: int) returns (open': seq<Seg>)
    requires PackInv(p, open, done, conv, mtu)
    requires Sendable(s, conv) && OVERHEAD + |s.data| <= mtu
    ensures PackInv(PackOne(p, EncodeSeg(s), mtu), open', done + [s], conv, mtu)
  {
    assert AllOnWire(done + [s]) == AllOnWire(done) + [OnWire(s)];
    if |p.cur| + |EncodeSeg(s)| > mtu {
      open' := [s];
      CloseKeeps(p, open, done, conv, mtu);
      assert EncodeAll([s]) == EncodeSeg(s) + EncodeAll([]);
      assert AllOnWire(open') == [OnWire(s)];
    } else {
      open' := open + [s];
      EncodeAllSnoc(open, s);
      assert AllOnWire(open') == AllOnWire(open) + [OnWire(s)];
    }
  }

  lemma {:induction false} PackAllInv(p: Packing, open: seq<Seg>, done: seq<Seg>, segs: seq<Seg>, conv: u32, mtu: int)
    returns (open': seq<Seg>)
    requires PackInv(p, open, done, conv, mtu)
    requires forall s :: s in segs ==> Sendable(s, conv) && OVERHEAD + |s.data| <= mtu
    ensures PackInv(PackAll(p, segs, mtu), open', done + segs, conv, mtu)
    decreases |segs|
  {
    if segs == [] {
      assert done + segs == done;
      return open;
    }
    var open1 := PackOneInv(p, open, done, segs[0], conv, mtu);
    assert done + [segs[0]] + segs[1..] == done + segs;
    open' := PackAllInv(PackOne(p, EncodeSeg(segs[0]), mtu), open1, done + [segs[0]], segs[1..], conv, mtu);
  }

  /** Every packet is nonempty and at most mtu bytes, and decoding the packets in order gives
      back the list of segments that was flushed. */
  lemma {:induction false} PacketsCorrect(segs: seq<Seg>, conv: u32, mtu: int)
    requires mtu >= 0
    requires forall s :: s in segs ==> Sendable(s, conv) && OVERHEAD + |s.data| <= mtu
    ensures forall q :: q in Packets(segs, mtu) ==> GoodPacket(q, conv, mtu)
    ensures DecodePackets(Packets(segs, mtu), conv) == AllOnWire(segs)
  {
    var open := PackAllInv(Packing([], []), [], [], segs, conv, mtu);
    assert [] + segs == segs;
    CloseKeeps(PackAll(Packing([], []), segs, mtu), open, segs, conv, mtu);
  }

  /** Each segment found in one of the packets is one of the segments flushed. */
  lemma {:induction false} DecodedFrom(ps: seq<seq<byte>>, conv: u32, p: seq<byte>, s: Seg)
    requires p in ps && s in Decode(p, conv).segs
    ensures s in DecodePackets(ps, conv)
  {
    if p != ps[0] {
      DecodedFrom(ps[1..], conv, p, s);
    }
  }
}
