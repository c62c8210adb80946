/** What is sent, and when nothing ever is: Nagle's buffer on an idle connection. */
module TcpProgress {
  import opened Words
  import opened Lists
  import opened Tcp
  import opened TcpSender
  import opened TcpWire
  import opened TcpConnection

  // ---------------------------------------------------------------- what tcp_output sends

  /** The packets made of the first n segments. */
  function PacketsOfFirst(l: seq<Seg>, n: nat, ackno: u32): seq<Packet>
    requires n <= |l|
  {
    if n == 0 then [] else PacketsOfFirst(l, n - 1, ackno) + [Packet(l[n - 1].seqno, l[n - 1].data, ackno)]
  }

  lemma {:induction false} PacketsOfTail(l: seq<Seg>, n: nat, ackno: u32)
    requires 0 < n <= |l|
    ensures PacketsOfFirst(l, n, ackno) == [Packet(l[0].seqno, l[0].data, ackno)] + PacketsOfFirst(l[1..], n - 1, ackno)
  {
    if n == 1 {
      assert PacketsOfFirst(l, 0, ackno) == [] && PacketsOfFirst(l[1..], 0, ackno) == [];
    } else {
      PacketsOfTail(l, n - 1, ackno);
      assert l[1..][n - 2] == l[n - 1];
    }
  }

  /** How many segments end within the window. */
  function WithinWindow(l: seq<Seg>, limit: u32): (n: nat)
    ensures n <= |l|
    ensures forall i :: 0 <= i < n ==> !SeqGt(End(l[i]), limit)
    ensures n < |l| ==> SeqGt(End(l[n]), limit)
  {
    if l == [] || SeqGt(End(l[0]), limit) then 0 else 1 + WithinWindow(l[1..], limit)
  }

  /** tcp_output sends the unsent segments in order, each once, up to the first that does not
      fit the window, which stays first in line. */
  lemma {:induction false} OutputSends(p: Pcb, limit: u32)
    ensures var n := WithinWindow(p.unsent, limit);
      OutputLoop(p, limit).1 == PacketsOfFirst(p.unsent, n, p.rcvNxt) && OutputLoop(p, limit).0.unsent == p.unsent[n..]
    decreases |p.unsent|
  {
    if p.unsent != [] && !SeqGt(End(p.unsent[0]), limit) {
      OutputSends(SendHead(p), limit);
      PacketsOfTail(p.unsent, WithinWindow(p.unsent, limit), p.rcvNxt);
    }
  }

  // ---------------------------------------------------------------- Nagle's buffer

  /** Nothing is sent or waiting to be, but bytes are in the buffer being filled. */
  predicate Stalled(p: Pcb) {
    p.unsent == [] && p.unacked == [] && p.sndBuf.Some?
  }

  /** All that was sent has arrived and is acknowledged, and the buffer is not empty. */
  ghost predicate StalledIn(c: Conn) {
    ConnOk(c) && Stalled(c.a.pcb) && c.a.pcb.sndUna == c.b.pcb.rcvNxt && c.a.pcb.sndMax <= c.a.pcb.sndUna
  }

  lemma {:induction false} ManyChunks(p: Pcb, data: seq<u8>, size: nat)
    requires p.unsent != []
    ensures EnqueueLoop(p, data, size).unsent != []
    decreases |data|
  {
    var rest := data[Room(p, |data|)..];
    if 0 < |rest| < |data| {
      ManyChunks(EnqueueChunk(p, data, size), rest, size);
    }
  }

  /** A write on an idle connection leaves nothing to send exactly when it is shorter than a
      segment and Nagle's algorithm is on.  Nagle's rule (section 3.7.4 of RFC 9293) holds data
      back only while some is unacknowledged; here it is held back on an idle connection too. */
  lemma SmallWriteStalls(p: Pcb, data: seq<u8>)
    requires p.unsent == [] && p.unacked == [] && p.sndBuf == None && data != []
    ensures Stalled(Enqueue(p, data)) <==> !p.noDelay && |data| < WithMss(p).sndMss
    ensures Enqueue(p, data).unsent != [] <==> p.noDelay || |data| >= WithMss(p).sndMss
  {
    var q := WithMss(p);
    var n := Room(q, |data|);
    var q1 := EnqueueChunk(q, data, |data|);
    EnqueueQuiet(q, data, |data|);
    if !p.noDelay && |data| < q.sndMss {
      assert data[n..] == [];
    } else {
      assert q1.unsent != [];
      if 0 < |data[n..]| {
        ManyChunks(q1, data[n..], |data|);
      }
    }
  }

  lemma {:induction false} EnqueueQuiet(p: Pcb, data: seq<u8>, size: nat)
    ensures EnqueueLoop(p, data, size).unacked == p.unacked
    decreases |data|
  {
    var rest := data[Room(p, |data|)..];
    if 0 < |rest| < |data| {
      EnqueueQuiet(EnqueueChunk(p, data, size), rest, size);
    }
  }

  lemma NothingOut(p: Pcb, wnd: nat)
    requires Stalled(p)
    ensures Output(p, wnd) == (p, []) && Rexmit(p, wnd) == (p, [])
  {
    assert Requeue(p, 0) == p;
  }

  lemma StalledInput(p: Pcb, q: Packet, wnd: nat)
    requires Stalled(p) && p.sndUna < 0x8000_0000 && q.ackno <= p.sndUna
    ensures var (p', out) := Input(p, q, wnd); Stalled(p') && out == [] && p'.sndUna == p.sndUna && p'.sndMax == p.sndMax
  {
    Plain(p.sndUna, q.ackno);
    NothingOut(p.(dupacks := p.dupacks + 1), wnd);
  }

  /** What the stalled host does, short of writing again, sends no data. */
  lemma StallLastsA(c: Conn, e: Event)
    requires StalledIn(c) && Possible(c.a, e, c.ba) && !(e.Do? && e.op.Write?)
    ensures StalledIn(StepA(c, e)) && StepA(c, e).b == c.b
  {
    StepKeeps(c, true, e);
    assert Step(c, true, e) == StepA(c, e);
    UnaIsPlain(c);
    var p := c.a.pcb;
    match e
    case Do(op) => match op {
      case Send(wnd) => NothingOut(p, wnd);
      case Retransmit(wnd) => NothingOut(p, wnd);
    }
    case Acknowledge(_) =>
    case Deliver(q, wnd) =>
      hide Input, Stalled, Side, ReceiverOk;
      StalledInput(p, q, wnd);
    case Read(_) =>
  }

  lemma UnaIsPlain(c: Conn)
    requires ConnOk(c)
    ensures c.a.pcb.sndUna < 0x8000_0000 && forall q :: q in c.ba ==> q.ackno <= c.b.pcb.rcvNxt
  {
  }

  lemma StalledDeliver(c: Conn, q: Packet, wnd: nat)
    requires StalledIn(c) && q in c.ab
    ensures var (p', out) := Input(c.b.pcb, q, wnd);
      p'.recved == c.b.pcb.recved && p'.rcvNxt == c.b.pcb.rcvNxt
  {
    var r := c.b.pcb;
    if Acceptable(r, q.seqno, |q.data|) {
      var (p1, out) := UpdateAck(r, q.ackno, |q.data|, wnd);
      UpdateAckSide(r, q.ackno, |q.data|, wnd, c.b.iss, c.b.stream, c.ba);
      if q.data != [] {
        NeverInside(r, c.a.pcb, c.b.taken, c.a.iss, c.a.stream, c.ab, q);
        assert PacketOk(q, c.a.iss, c.a.stream, c.a.pcb.sndMax);
        UpdateBufIs(p1, q);
      }
    }
  }

  /** Nor does anything reach the other host that it did not have. */
  lemma StallLastsB(c: Conn, e: Event)
    requires StalledIn(c) && Possible(c.b, e, c.ab)
    ensures StalledIn(Swap(StepA(Swap(c), e))) && Arrived(Swap(StepA(Swap(c), e)).b) == Arrived(c.b)
  {
    hide Side, ReceiverOk, Input, Stalled, Apply, Emitted, Received, Bytes, SenderInv, PacketOk;
    StepKeeps(c, false, e);
    assert Step(c, false, e) == Swap(StepA(Swap(c), e));
    match e
    case Do(op) => DoIsQuiet(c, op);
    case Acknowledge(_) =>
    case Deliver(q, wnd) => StalledDeliver(c, q, wnd);
    case Read(n) =>
      var (rest, taken, got) := Received(c.b.pcb.recved, n);
      ReceivedIs(c.b.pcb.recved, n);
      Together(c.b.taken, taken, Bytes(rest));
  }

  lemma DoIsQuiet(c: Conn, op: SenderOp)
    requires ConnOk(c) && Possible(c.b, Do(op), c.ab)
    ensures Quiet(c.b.pcb, Apply(c.b.pcb, op))
  {
    DoSends(c.b.pcb, op, c.b.iss, c.b.stream, c.ba);
  }

  predicate NoWrites(run: seq<Happening>) {
    forall i :: 0 <= i < |run| ==> !(run[i].atA && run[i].e.Do? && run[i].e.op.Write?)
  }

  /** Bytes held back on an idle connection are never delivered, whatever the network and both
      hosts do, until the sender writes again. */
  lemma {:induction false} StallLasts(c: Conn, run: seq<Happening>)
    requires StalledIn(c) && PossibleRun(c, run) && NoWrites(run)
    ensures StalledIn(After(c, run)) && Arrived(After(c, run).b) == Arrived(c.b)
    decreases |run|
  {
    if run != [] {
      var c1 := Step(c, run[0].atA, run[0].e);
      if run[0].atA { StallLastsA(c, run[0].e); } else { StallLastsB(c, run[0].e); }
      StallLasts(c1, run[1..]);
    }
  }

  /** It happens to the first write after the handshake. */
  lemma FirstSmallWriteStalls(c: Conn, data: seq<u8>)
    requires Established(c) && !c.a.pcb.noDelay && 0 < |data| < c.a.pcb.sndMss && c.a.iss + |data| < 0x8000_0000
    ensures StalledIn(StepA(c, Do(Write(data))))
  {
    hide Side, ReceiverOk, Bytes, InsertSort;
    EstablishedOk(c);
    DoKeeps(c, Write(data));
    DoSends(c.a.pcb, Write(data), c.a.iss, c.a.stream, c.ab);
    SmallWriteStalls(c.a.pcb, data);
    var q1 := EnqueueChunk(c.a.pcb, data, |data|);
    assert data[Room(c.a.pcb, |data|)..] == [];
    assert Enqueue(c.a.pcb, data) == q1;
  }
}
