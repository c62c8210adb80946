/** TCP data transfer in the established state (src/net/tcp_output.c, src/net/tcp_input.c):
    the sender's three stores of segments, and the receiver's queue of accepted ones. */
module Tcp {
  import opened Lists
  import opened Words

  const TCP_DEFAULT_MSS := 536
  const TCP_REXMIT_THREASH := 3

  // ---------------------------------------------------------------- sequence numbers

  function Add32(a: u32, n: int): u32 {
    (a + n) % 0x1_0000_0000
  }

  /** (int)(a - b), the number all TCP_SEQ comparisons look at. */
  function SeqDiff(a: u32, b: u32): int {
    Signed((a - b) % 0x1_0000_0000)
  }

  predicate SeqLt(a: u32, b: u32) { SeqDiff(a, b) < 0 }
  predicate SeqLeq(a: u32, b: u32) { SeqDiff(a, b) <= 0 }
  predicate SeqGt(a: u32, b: u32) { SeqDiff(a, b) > 0 }
  predicate SeqGeq(a: u32, b: u32) { SeqDiff(a, b) >= 0 }

  /** The order of the segment lists compares sequence numbers as C ints, the protocol
      compares their difference.  For two numbers less than half the circle apart the two
      orders agree exactly when the pair does not step over 2^31. */
  lemma ListOrderIsSequenceOrder(a: u32, b: u32)
    requires SeqLt(a, b) && SeqDiff(b, a) > 0
    ensures Signed(a) < Signed(b) <==> !(a < 0x8000_0000 <= b)
  {
  }

  /** A pair that steps over 2^31 is listed in the wrong order. */
  lemma ListOrderFailsAcrossTheSign()
    ensures exists a: u32, b: u32 :: SeqLt(a, b) && Signed(b) < Signed(a)
  {
    var a: u32, b: u32 := 0x7FFF_FFFF, 0x8000_0000;
    assert SeqLt(a, b) && Signed(b) < Signed(a);
  }

  /** Numbers below 2^31 compare as they are, in the protocol and in the lists. */
  lemma Plain(a: u32, b: u32)
    requires a < 0x8000_0000 && b < 0x8000_0000
    ensures SeqDiff(a, b) == a - b && Signed(a) == a
  {
  }

  /** So do numbers less than half the circle apart. */
  lemma Near(a: u32, b: u32)
    requires -0x8000_0000 <= a - b < 0x8000_0000
    ensures SeqDiff(a, b) == a - b
  {
  }

  // ---------------------------------------------------------------- segments and control block

  /** A packet buffer on one of the lists; `count` is 2 while the driver holds it too. */
  datatype Seg = Seg(seqno: u32, data: seq<u8>, count: nat)

  /** What goes over the wire. */
  datatype Packet = Packet(seqno: u32, data: seq<u8>, ackno: u32)

  datatype Pcb = Pcb(
    sndUna: u32, sndNxt: u32, sndMax: u32, sndNbb: u32, sndMss: nat, noDelay: bool, dupacks: nat,
    sndBuf: Option<Seg>, unsent: seq<Seg>, unacked: seq<Seg>,
    rcvNxt: u32, rcvWnd: int, recved: seq<Seg>)

  function End(s: Seg): u32 {
    Add32(s.seqno, |s.data|)
  }

  /** The key the segment lists are sorted by: the sequence number read as a C int. */
  function SegKey(s: Seg): int {
    Signed(s.seqno)
  }

  function InsertSort(l: seq<Seg>, s: Seg): seq<Seg> {
    InsertBy(l, s, SegKey)
  }

  // ---------------------------------------------------------------- tcp_enqueue

  /** The buffer being filled, a new empty one if there is none. */
  function Filling(p: Pcb): Seg {
    if p.sndBuf.Some? then p.sndBuf.value else Seg(p.sndNbb, [], 1)
  }

  /** How much of `n` bytes still fits. */
  function Room(p: Pcb, n: nat): nat {
    var seglen := p.sndMss - |Filling(p).data|;
    if n < seglen then n else if seglen < 0 then 0 else seglen
  }

  /** One turn of the loop of tcp_enqueue, for a call that was given `size` bytes in all. */
  function EnqueueChunk(p: Pcb, data: seq<u8>, size: nat): Pcb {
    var len := Room(p, |data|);
    var b := Filling(p).(data := Filling(p).data + data[..len]);
    var p1 := p.(sndNbb := Add32(p.sndNbb, len));
    if !p.noDelay && |b.data| < p.sndMss && size > 0 then p1.(sndBuf := Some(b))
    else p1.(unsent := InsertSort(p.unsent, b), sndBuf := None)
  }

  /** The loop of tcp_enqueue.  It makes progress only while the buffer has room. */
  function EnqueueLoop(p: Pcb, data: seq<u8>, size: nat): Pcb
    decreases |data|
  {
    var p1 := EnqueueChunk(p, data, size);
    var rest := data[Room(p, |data|)..];
    if |rest| == 0 || |rest| == |data| then p1 else EnqueueLoop(p1, rest, size)
  }

  function WithMss(p: Pcb): Pcb {
    if p.sndMss < TCP_DEFAULT_MSS then p.(sndMss := TCP_DEFAULT_MSS) else p
  }

  function Enqueue(p: Pcb, data: seq<u8>): Pcb {
    EnqueueLoop(WithMss(p), data, |data|)
  }

  // ---------------------------------------------------------------- tcp_output, tcp_rexmit

  function PacketOf(p: Pcb, s: Seg): Packet {
    Packet(s.seqno, s.data, p.rcvNxt)
  }

  /** The first unsent segment is sent and moves to `unacked`. */
  function SendHead(p: Pcb): Pcb
    requires p.unsent != []
  {
    var s := p.unsent[0];
    p.(sndNxt := End(s),
       sndMax := if SeqGt(End(s), p.sndMax) then End(s) else p.sndMax,
       unsent := p.unsent[1..],
       unacked := InsertSort(p.unacked, s.(count := s.count + 1)))
  }

  /** The loop of tcp_output, up to the right edge `limit` of the window. */
  function OutputLoop(p: Pcb, limit: u32): (Pcb, seq<Packet>)
    decreases |p.unsent|
  {
    if p.unsent == [] || SeqGt(End(p.unsent[0]), limit) then (p, [])
    else
      var (p', out) := OutputLoop(SendHead(p), limit);
      (p', [PacketOf(p, p.unsent[0])] + out)
  }

  /** tcp_output with `wnd` the smaller of congestion and send window. */
  function Output(p: Pcb, wnd: nat): (Pcb, seq<Packet>) {
    if wnd < TCP_DEFAULT_MSS then (p, []) else OutputLoop(p, Add32(p.sndUna, wnd))
  }

  /** The loop of tcp_rexmit over `unacked[i..]`: what the driver no longer holds goes back. */
  function Requeue(p: Pcb, i: nat): Pcb
    requires i <= |p.unacked|
    decreases |p.unacked| - i
  {
    if i == |p.unacked| then p
    else if p.unacked[i].count > 1 then Requeue(p, i + 1)
    else
      Requeue(p.(unacked := p.unacked[..i] + p.unacked[i + 1..], unsent := InsertSort(p.unsent, p.unacked[i])), i)
  }

  function Rexmit(p: Pcb, wnd: nat): (Pcb, seq<Packet>) {
    Output(Requeue(p, 0), wnd)
  }

  // ---------------------------------------------------------------- tcp_update_ack

  /** The segments not wholly acknowledged. */
  function Unacknowledged(l: seq<Seg>, ackno: u32): seq<Seg> {
    if l == [] then []
    else if SeqGt(End(l[0]), ackno) then [l[0]] + Unacknowledged(l[1..], ackno)
    else Unacknowledged(l[1..], ackno)
  }

  /** tcp_update_ack for a segment of `size` bytes; `wnd` is the window of a retransmission
      that duplicate acknowledgements may trigger. */
  function UpdateAck(p: Pcb, ackno: u32, size: nat, wnd: nat): (Pcb, seq<Packet>) {
    if SeqGeq(p.sndUna, ackno) then
      if size > 0 then (p.(dupacks := 0), [])
      else
        var p1 := p.(dupacks := p.dupacks + 1);
        if p1.dupacks < TCP_REXMIT_THREASH then (p1, []) else Rexmit(p1, wnd)
    else
      var p1 := p.(dupacks := 0, sndUna := ackno,
                   unacked := Unacknowledged(p.unacked, ackno), unsent := Unacknowledged(p.unsent, ackno));
      (Flush(p1, ackno), [])
  }

  /** Nagle's buffer is released once everything sent is acknowledged. */
  function Flush(p: Pcb, ackno: u32): Pcb {
    if p.sndBuf.Some? && |p.sndBuf.value.data| > 0 && ackno == p.sndMax then
      p.(unsent := InsertSort(p.unsent, p.sndBuf.value), sndBuf := None)
    else p
  }

  // ---------------------------------------------------------------- tcp_validate, tcp_update_buf

  predicate Acceptable(p: Pcb, seqno: u32, size: nat) {
    var end := Add32(seqno, size);
    !SeqGt(end, Add32(p.rcvNxt, p.rcvWnd)) && !SeqLt(end, p.rcvNxt)
  }

  /** tcp_update_buf for a segment with data. */
  function UpdateBuf(p: Pcb, seqno: u32, data: seq<u8>): Pcb {
    var end := Add32(seqno, |data|);
    if SeqLeq(end, p.rcvNxt) || SeqGt(seqno, p.rcvNxt) then p
    else
      var offset := if SeqLt(seqno, p.rcvNxt) then (p.rcvNxt - seqno) % 0x1_0000_0000 else 0;
      var kept := if offset <= |data| then data[offset..] else [];
      if |kept| == 0 then p
      else p.(rcvNxt := end, rcvWnd := p.rcvWnd - |kept|, recved := InsertSort(p.recved, Seg(seqno, kept, 2)))
  }

  // ---------------------------------------------------------------- tcp_recvmsg

  /** The loop of tcp_recvmsg over the queue, with `left` bytes of buffer: what stays queued, the
      bytes that leave the queue, and those copied to the buffer.  The first segment that does
      not fit is copied in part, but stays queued as it is: it is cut by what is left of the
      buffer, which by then is 0. */
  function Received(l: seq<Seg>, left: nat): (seq<Seg>, seq<u8>, seq<u8>)
    decreases |l|
  {
    if l == [] then ([], [], [])
    else if left < |l[0].data| then (l, [], l[0].data[..left])
    else
      var (rest, taken, got) := Received(l[1..], left - |l[0].data|);
      (rest, l[0].data + taken, l[0].data + got)
  }

  /** tcp_recvmsg with something in the queue. */
  function Receive(p: Pcb, n: nat): Pcb {
    var (rest, taken, _) := Received(p.recved, n);
    p.(recved := rest, rcvWnd := p.rcvWnd + |taken|)
  }

  /** tcp_input from the validity check on, for a segment that carries an acknowledgement. */
  function Input(p: Pcb, q: Packet, wnd: nat): (Pcb, seq<Packet>) {
    if !Acceptable(p, q.seqno, |q.data|) then (p, [])
    else
      var (p1, out) := UpdateAck(p, q.ackno, |q.data|, wnd);
      (if |q.data| > 0 then UpdateBuf(p1, q.seqno, q.data) else p1, out)
  }
}
