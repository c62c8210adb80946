/** A sender together with every packet it ever sent: the packets carry the bytes of the
    stream, and their boundaries never cut across one another. */
module TcpWire {
  import opened Words
  import opened Tcp
  import opened TcpSender

  // ---------------------------------------------------------------- what is on the wire

  /** Two ranges are disjoint or the same, unless one is empty. */
  predicate Apart(a: int, m: nat, b: int, n: nat) {
    m == 0 || n == 0 || a + m <= b || b + n <= a || (a == b && m == n)
  }

  predicate Clear(q: Packet, l: seq<Seg>) {
    forall s :: s in l ==> Apart(q.seqno, |q.data|, s.seqno, |s.data|)
  }

  predicate PacketOk(q: Packet, iss: nat, stream: seq<u8>, max: int) {
    q.seqno + |q.data| < 0x8000_0000 &&
    (q.data != [] ==>
      iss <= q.seqno && q.seqno + |q.data| <= iss + |stream| && q.seqno + |q.data| <= max &&
      q.data == stream[q.seqno - iss..q.seqno - iss + |q.data|])
  }

  ghost predicate WireOk(p: Pcb, iss: nat, stream: seq<u8>, wire: set<Packet>) {
    (forall q :: q in wire ==> PacketOk(q, iss, stream, p.sndMax) && Clear(q, p.unsent) && Clear(q, p.unacked)) &&
    (forall q, r :: q in wire && r in wire ==> Apart(q.seqno, |q.data|, r.seqno, |r.data|))
  }

  /** A sender together with all packets it ever sent. */
  ghost predicate Side(p: Pcb, iss: nat, stream: seq<u8>, wire: set<Packet>) {
    SenderInv(p, iss, stream) && WireOk(p, iss, stream, wire)
  }

  /** The boundaries of the segments in the two lists are old ones, or lie after all that was sent. */
  predicate OldBoundaries(p: Pcb, l: seq<Seg>) {
    forall t :: t in l ==> t.seqno >= p.sndMax || HasRange(p.unsent, t) || HasRange(p.unacked, t)
  }

  predicate HasRange(l: seq<Seg>, t: Seg) {
    exists s :: s in l && s.seqno == t.seqno && |s.data| == |t.data|
  }

  /** Nothing happened to the receiving half, and snd_max did not go back. */
  predicate Quiet(p: Pcb, p': Pcb) {
    p'.rcvNxt == p.rcvNxt && p'.rcvWnd == p.rcvWnd && p'.recved == p.recved && p'.sndMax >= p.sndMax
  }

  lemma PacketOkGrows(q: Packet, iss: nat, stream: seq<u8>, more: seq<u8>, max: int, max': int)
    requires PacketOk(q, iss, stream, max) && max <= max'
    ensures PacketOk(q, iss, stream + more, max')
  {
    if q.data != [] {
      var a, b := q.seqno - iss, q.seqno - iss + |q.data|;
      assert (stream + more)[a..b] == stream[a..b];
    }
  }

  lemma StaysClear(p: Pcb, q: Packet, iss: nat, stream: seq<u8>, l: seq<Seg>)
    requires PacketOk(q, iss, stream, p.sndMax) && Clear(q, p.unsent) && Clear(q, p.unacked) && OldBoundaries(p, l)
    ensures Clear(q, l)
  {
  }

  lemma WireKeeps(p: Pcb, p': Pcb, iss: nat, stream: seq<u8>, more: seq<u8>, wire: set<Packet>)
    requires WireOk(p, iss, stream, wire) && p.sndMax <= p'.sndMax
    requires OldBoundaries(p, p'.unsent) && OldBoundaries(p, p'.unacked)
    ensures WireOk(p', iss, stream + more, wire)
  {
    forall q | q in wire
      ensures PacketOk(q, iss, stream + more, p'.sndMax) && Clear(q, p'.unsent) && Clear(q, p'.unacked)
    {
      PacketOkGrows(q, iss, stream, more, p.sndMax, p'.sndMax);
      StaysClear(p, q, iss, stream, p'.unsent);
      StaysClear(p, q, iss, stream, p'.unacked);
    }
  }

  lemma WireKeepsStream(p: Pcb, p': Pcb, iss: nat, stream: seq<u8>, wire: set<Packet>)
    requires WireOk(p, iss, stream, wire) && p.sndMax <= p'.sndMax
    requires OldBoundaries(p, p'.unsent) && OldBoundaries(p, p'.unacked)
    ensures WireOk(p', iss, stream, wire)
  {
    WireKeeps(p, p', iss, stream, [], wire);
    assert stream + [] == stream;
  }

  lemma MemberHasRange(l: seq<Seg>, t: Seg)
    requires t in l
    ensures HasRange(l, t)
  {
  }

  lemma SameRange(l: seq<Seg>, s: Seg, t: Seg)
    requires s in l && s.seqno == t.seqno && s.data == t.data
    ensures HasRange(l, t)
  {
  }

  lemma OldSegments(p: Pcb, l: seq<Seg>)
    requires forall t :: t in l ==> t in p.unsent || t in p.unacked
    ensures OldBoundaries(p, l)
  {
    forall t | t in l ensures HasRange(p.unsent, t) || HasRange(p.unacked, t) {
      if t in p.unsent { MemberHasRange(p.unsent, t); } else { MemberHasRange(p.unacked, t); }
    }
  }

  // ---------------------------------------------------------------- the sender's steps

  lemma EnqueueChunkSide(p: Pcb, iss: nat, stream: seq<u8>, wire: set<Packet>, data: seq<u8>, size: nat)
    requires Side(p, iss, stream, wire) && iss + |stream| + |data| < 0x8000_0000
    ensures Side(EnqueueChunk(p, data, size), iss, stream + data[..Room(p, |data|)], wire)
    ensures Quiet(p, EnqueueChunk(p, data, size))
  {
    EnqueueChunkKeeps(p, iss, stream, data, size);
    var p' := EnqueueChunk(p, data, size);
    OldSegments(p, p.unsent);
    OldSegments(p, p.unacked);
    InsertKeeps(p.unsent, Filling(p).(data := Filling(p).data + data[..Room(p, |data|)]));
    assert OldBoundaries(p, p'.unsent);
    WireKeeps(p, p', iss, stream, data[..Room(p, |data|)], wire);
  }

  lemma {:induction false} EnqueueLoopSide(p: Pcb, iss: nat, stream: seq<u8>, wire: set<Packet>, data: seq<u8>, size: nat)
    requires Side(p, iss, stream, wire) && iss + |stream| + |data| < 0x8000_0000
    ensures Side(EnqueueLoop(p, data, size), iss, stream + data, wire) && Quiet(p, EnqueueLoop(p, data, size))
    decreases |data|
  {
    EnqueueLoopKeeps(p, iss, stream, data, size);
    EnqueueChunkSide(p, iss, stream, wire, data, size);
    EnqueueChunkKeeps(p, iss, stream, data, size);
    var n := Room(p, |data|);
    var rest := data[n..];
    assert stream + data[..n] + rest == stream + data;
    if |rest| == 0 {
      assert stream + data[..n] == stream + data;
    } else {
      EnqueueLoopSide(EnqueueChunk(p, data, size), iss, stream + data[..n], wire, rest, size);
    }
  }

  /** A segment in a store overlaps no other one. */
  lemma HeadIsClear(p: Pcb, t: Seg)
    requires Partition(p) && p.unsent != [] && (t in p.unsent[1..] || t in p.unacked)
    ensures Apart(p.unsent[0].seqno, |p.unsent[0].data|, t.seqno, |t.data|)
  {
    var s := p.unsent[0];
    if !Apart(s.seqno, |s.data|, t.seqno, |t.data|) {
      var x := if s.seqno < t.seqno then t.seqno else s.seqno;
      assert Holders(p, x) <= 1;
      if t in p.unacked { MemberCounts(p.unacked, t, x); } else { MemberCounts(p.unsent[1..], t, x); }
      assert false;
    }
  }

  /** The packet made of the first unsent segment is apart from all others. */
  lemma SentHeadIsClear(p: Pcb, iss: nat, stream: seq<u8>)
    requires SenderInv(p, iss, stream) && p.unsent != []
    ensures var p', q := SendHead(p), PacketOf(p, p.unsent[0]); Clear(q, p'.unsent) && Clear(q, p'.unacked)
  {
    var p', s := SendHead(p), p.unsent[0];
    var t := s.(count := s.count + 1);
    InsertKeeps(p.unacked, t);
    forall u | u in p'.unsent || u in p'.unacked ensures Apart(s.seqno, |s.data|, u.seqno, |u.data|) {
      if u != t { HeadIsClear(p, u); }
    }
  }

  lemma SentHeadIsOk(p: Pcb, iss: nat, stream: seq<u8>)
    requires SenderInv(p, iss, stream) && p.unsent != []
    ensures PacketOk(PacketOf(p, p.unsent[0]), iss, stream, SendHead(p).sndMax)
  {
    SendHeadNumbers(p, iss, stream);
    assert SegOk(p.unsent[0], iss, stream);
  }

  lemma AddPacket(p: Pcb, iss: nat, stream: seq<u8>, wire: set<Packet>, q: Packet)
    requires WireOk(p, iss, stream, wire)
    requires PacketOk(q, iss, stream, p.sndMax) && Clear(q, p.unsent) && Clear(q, p.unacked)
    requires forall r :: r in wire ==> Apart(r.seqno, |r.data|, q.seqno, |q.data|)
    ensures WireOk(p, iss, stream, wire + {q})
  {
  }

  lemma SendHeadBoundaries(p: Pcb)
    requires p.unsent != []
    ensures OldBoundaries(p, SendHead(p).unsent) && OldBoundaries(p, SendHead(p).unacked)
  {
    var s := p.unsent[0];
    var t := s.(count := s.count + 1);
    assert s in p.unsent;
    OldSegments(p, p.unsent[1..]);
    InsertKeeps(p.unacked, t);
    forall u | u in SendHead(p).unacked ensures HasRange(p.unsent, u) || HasRange(p.unacked, u) {
      if u == t { SameRange(p.unsent, s, u); } else { MemberHasRange(p.unacked, u); }
    }
  }

  lemma SendHeadSide(p: Pcb, iss: nat, stream: seq<u8>, wire: set<Packet>)
    requires Side(p, iss, stream, wire) && p.unsent != []
    ensures Side(SendHead(p), iss, stream, wire + {PacketOf(p, p.unsent[0])}) && Quiet(p, SendHead(p))
  {
    var p', s := SendHead(p), p.unsent[0];
    SendHeadKeeps(p, iss, stream);
    SentHeadIsClear(p, iss, stream);
    SentHeadIsOk(p, iss, stream);
    SendHeadBoundaries(p);
    assert s in p.unsent;
    WireKeepsStream(p, p', iss, stream, wire);
    AddPacket(p', iss, stream, wire, PacketOf(p, s));
  }

  function Packets(out: seq<Packet>): set<Packet> {
    set q | q in out
  }

  lemma PacketsOf(q: Packet, out: seq<Packet>, wire: set<Packet>)
    ensures wire + {q} + Packets(out) == wire + Packets([q] + out)
  {
  }

  /** What a step that may send does to one side of the connection. */
  ghost predicate Sends(p: Pcb, p': Pcb, out: seq<Packet>, iss: nat, stream: seq<u8>, wire: set<Packet>) {
    Side(p', iss, stream, wire + Packets(out)) && Quiet(p, p') && (forall q :: q in out ==> q.ackno == p.rcvNxt)
  }

  lemma SendsNothing(p: Pcb, p': Pcb, iss: nat, stream: seq<u8>, wire: set<Packet>)
    requires Side(p', iss, stream, wire) && Quiet(p, p')
    ensures Sends(p, p', [], iss, stream, wire)
  {
    assert wire + Packets([]) == wire;
  }

  lemma {:induction false} OutputLoopSide(p: Pcb, limit: u32, iss: nat, stream: seq<u8>, wire: set<Packet>)
    requires Side(p, iss, stream, wire)
    ensures var (p', out) := OutputLoop(p, limit); Sends(p, p', out, iss, stream, wire) && p'.sndUna == p.sndUna
    decreases |p.unsent|
  {
    if p.unsent == [] || SeqGt(End(p.unsent[0]), limit) {
      SendsNothing(p, p, iss, stream, wire);
    } else {
      var q0 := PacketOf(p, p.unsent[0]);
      SendHeadSide(p, iss, stream, wire);
      OutputLoopSide(SendHead(p), limit, iss, stream, wire + {q0});
      PacketsOf(q0, OutputLoop(SendHead(p), limit).1, wire);
    }
  }

  lemma BackSide(p: Pcb, i: nat, iss: nat, stream: seq<u8>, wire: set<Packet>)
    requires Side(p, iss, stream, wire) && i < |p.unacked| && p.unacked[i].count == 1
    ensures Side(Back(p, i), iss, stream, wire)
  {
    BackKeeps(p, i, iss, stream);
    InsertKeeps(p.unsent, p.unacked[i]);
    assert p.unacked[i] in p.unacked;
    OldSegments(p, Back(p, i).unsent);
    OldSegments(p, Back(p, i).unacked);
    WireKeepsStream(p, Back(p, i), iss, stream, wire);
  }

  lemma {:induction false} RequeueSide(p: Pcb, i: nat, iss: nat, stream: seq<u8>, wire: set<Packet>)
    requires Side(p, iss, stream, wire) && i <= |p.unacked|
    ensures Side(Requeue(p, i), iss, stream, wire) && Quiet(p, Requeue(p, i)) && Requeue(p, i).sndUna == p.sndUna
    decreases |p.unacked| - i
  {
    if i < |p.unacked| {
      assert p.unacked[i] in p.unacked;
      if p.unacked[i].count > 1 {
        RequeueSide(p, i + 1, iss, stream, wire);
      } else {
        BackSide(p, i, iss, stream, wire);
        RequeueSide(Back(p, i), i, iss, stream, wire);
      }
    }
  }

  lemma OutputSide(p: Pcb, wnd: nat, iss: nat, stream: seq<u8>, wire: set<Packet>)
    requires Side(p, iss, stream, wire)
    ensures var (p', out) := Output(p, wnd); Sends(p, p', out, iss, stream, wire) && p'.sndUna == p.sndUna
  {
    if wnd < TCP_DEFAULT_MSS {
      SendsNothing(p, p, iss, stream, wire);
    } else {
      OutputLoopSide(p, Add32(p.sndUna, wnd), iss, stream, wire);
    }
  }

  lemma RexmitSide(p: Pcb, wnd: nat, iss: nat, stream: seq<u8>, wire: set<Packet>)
    requires Side(p, iss, stream, wire)
    ensures var (p', out) := Rexmit(p, wnd); Sends(p, p', out, iss, stream, wire) && p'.sndUna == p.sndUna
  {
    RequeueSide(p, 0, iss, stream, wire);
    OutputSide(Requeue(p, 0), wnd, iss, stream, wire);
  }

  lemma FlushSide(p: Pcb, ackno: u32, iss: nat, stream: seq<u8>, wire: set<Packet>)
    requires Side(p, iss, stream, wire)
    ensures Side(Flush(p, ackno), iss, stream, wire)
  {
    FlushKeeps(p, ackno, iss, stream);
    OldSegments(p, p.unsent);
    OldSegments(p, p.unacked);
    if p.sndBuf.Some? {
      InsertKeeps(p.unsent, p.sndBuf.value);
    }
    WireKeepsStream(p, Flush(p, ackno), iss, stream, wire);
  }

  lemma AdvanceSide(p: Pcb, ackno: u32, iss: nat, stream: seq<u8>, wire: set<Packet>)
    requires Side(p, iss, stream, wire) && p.sndUna <= ackno <= p.sndNbb
    ensures Side(Advance(p, ackno), iss, stream, wire)
  {
    AdvanceKeeps(p, ackno, iss, stream);
    UnacknowledgedKeeps(p.unacked, ackno);
    UnacknowledgedKeeps(p.unsent, ackno);
    OldSegments(p, Advance(p, ackno).unsent);
    OldSegments(p, Advance(p, ackno).unacked);
    WireKeepsStream(p, Advance(p, ackno), iss, stream, wire);
  }

  /** A change of the fields the sender's stores do not depend on. */
  lemma SameStores(p: Pcb, p': Pcb, iss: nat, stream: seq<u8>, wire: set<Packet>)
    requires Side(p, iss, stream, wire)
    requires p' == p.(dupacks := p'.dupacks, rcvNxt := p'.rcvNxt, rcvWnd := p'.rcvWnd, recved := p'.recved)
    ensures Side(p', iss, stream, wire)
  {
    forall x ensures Holders(p', x) == Holders(p, x) {
    }
  }

  lemma DuplicateSide(p: Pcb, ackno: u32, size: nat, wnd: nat, iss: nat, stream: seq<u8>, wire: set<Packet>)
    requires Side(p, iss, stream, wire) && SeqGeq(p.sndUna, ackno)
    ensures var (p', out) := UpdateAck(p, ackno, size, wnd);
      Sends(p, p', out, iss, stream, wire) && p'.sndUna == p.sndUna
  {
    hide SenderInv, WireOk, Requeue, OutputLoop;
    var p1 := p.(dupacks := if size > 0 then 0 else p.dupacks + 1);
    SameStores(p, p1, iss, stream, wire);
    SendsNothing(p, p1, iss, stream, wire);
    RexmitSide(p1, wnd, iss, stream, wire);
  }

  lemma UpdateAckSide(p: Pcb, ackno: u32, size: nat, wnd: nat, iss: nat, stream: seq<u8>, wire: set<Packet>)
    requires Side(p, iss, stream, wire) && (!SeqGeq(p.sndUna, ackno) ==> ackno <= p.sndNbb)
    ensures var (p', out) := UpdateAck(p, ackno, size, wnd);
      Sends(p, p', out, iss, stream, wire) && (p'.sndUna == p.sndUna || p'.sndUna == ackno)
  {
    if SeqGeq(p.sndUna, ackno) {
      DuplicateSide(p, ackno, size, wnd, iss, stream, wire);
    } else {
      Plain(p.sndUna, ackno);
      AdvanceSide(p, ackno, iss, stream, wire);
      FlushSide(Advance(p, ackno), ackno, iss, stream, wire);
      SendsNothing(p, UpdateAck(p, ackno, size, wnd).0, iss, stream, wire);
    }
  }

  lemma ReleaseSide(p: Pcb, i: nat, iss: nat, stream: seq<u8>, wire: set<Packet>)
    requires Side(p, iss, stream, wire) && i < |p.unacked|
    ensures Side(Released(p, i), iss, stream, wire)
  {
    ReleaseKeeps(p, i, iss, stream);
    OldSegments(p, p.unsent);
    OldSegments(p, p.unacked);
    assert p.unacked[i] in p.unacked;
    assert HasRange(p.unacked, p.unacked[i].(count := 1));
    WireKeepsStream(p, Released(p, i), iss, stream, wire);
  }
}
