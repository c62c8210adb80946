/** Two hosts in the established state and a network that loses, duplicates and reorders:
    a packet once sent may be delivered any number of times, at any moment, or never. */
module TcpConnection {
  import opened Lists
  import opened Words
  import opened Tcp
  import opened TcpSender
  import opened TcpWire

  // ---------------------------------------------------------------- the receiver

  /** What the application will read from the queue. */
  function Bytes(l: seq<Seg>): seq<u8> {
    if l == [] then [] else l[0].data + Bytes(l[1..])
  }

  lemma {:induction false} BytesAppend(l: seq<Seg>, s: Seg)
    ensures Bytes(l + [s]) == Bytes(l) + s.data
  {
    if l == [] {
      assert Bytes([s]) == s.data;
    } else {
      BytesAppend(l[1..], s);
      assert (l + [s])[1..] == l[1..] + [s];
    }
  }

  lemma {:induction false} InsertLast(l: seq<Seg>, s: Seg)
    requires s.seqno < 0x8000_0000 && forall t :: t in l ==> t.seqno < s.seqno
    ensures InsertSort(l, s) == l + [s]
  {
    if l != [] {
      assert l[0] in l;
      InsertLast(l[1..], s);
    }
  }

  const TCP_WINDOW := 8192

  /** The receiver of a stream whose bytes are numbered from `iss` has accepted a beginning of
      it, one that ends where some packet ends; the application took the first bytes, and those
      still queued are no more than the window. */
  ghost predicate ReceiverOk(r: Pcb, taken: seq<u8>, iss: nat, stream: seq<u8>, wire: set<Packet>) {
    iss <= r.rcvNxt <= iss + |stream| < 0x8000_0000 &&
    (r.rcvNxt == iss || exists q :: q in wire && EndsAt(q, r.rcvNxt)) &&
    taken + Bytes(r.recved) == stream[..r.rcvNxt - iss] &&
    (forall s :: s in r.recved ==> s.seqno < r.rcvNxt) &&
    0 <= r.rcvWnd && r.rcvWnd + |Bytes(r.recved)| == TCP_WINDOW
  }

  predicate EndsAt(q: Packet, n: int) {
    q.data != [] && q.seqno + |q.data| == n
  }

  /** Since boundaries never cross, what the receiver waits for is never inside a packet. */
  lemma NeverInside(r: Pcb, p: Pcb, taken: seq<u8>, iss: nat, stream: seq<u8>, wire: set<Packet>, q: Packet)
    requires ReceiverOk(r, taken, iss, stream, wire) && WireOk(p, iss, stream, wire) && q in wire
    ensures !(q.seqno < r.rcvNxt < q.seqno + |q.data|)
  {
    assert PacketOk(q, iss, stream, p.sndMax);
    if r.rcvNxt != iss {
      var t :| t in wire && EndsAt(t, r.rcvNxt);
      assert Apart(q.seqno, |q.data|, t.seqno, |t.data|);
    }
  }

  /** A segment with data is queued exactly when it begins where the receiver waits. */
  lemma UpdateBufIs(r: Pcb, q: Packet)
    requires r.rcvNxt < 0x8000_0000 && forall s :: s in r.recved ==> s.seqno < r.rcvNxt
    requires q.data != [] && q.seqno + |q.data| < 0x8000_0000 && !(q.seqno < r.rcvNxt < q.seqno + |q.data|)
    ensures UpdateBuf(r, q.seqno, q.data) == if q.seqno == r.rcvNxt then Queued(r, q) else r
  {
    Plain(Add32(q.seqno, |q.data|), r.rcvNxt);
    Plain(q.seqno, r.rcvNxt);
    assert q.data[0..] == q.data;
    if q.seqno == r.rcvNxt {
      InsertLast(r.recved, Seg(q.seqno, q.data, 2));
    }
  }

  function Queued(r: Pcb, q: Packet): Pcb {
    var s := Seg(q.seqno, q.data, 2);
    r.(rcvNxt := End(s), rcvWnd := r.rcvWnd - |q.data|, recved := r.recved + [s])
  }

  lemma FitsWindow(r: Pcb, q: Packet)
    requires r.rcvNxt < 0x8000_0000 && 0 <= r.rcvWnd <= TCP_WINDOW
    requires q.seqno == r.rcvNxt && q.seqno + |q.data| < 0x8000_0000 && Acceptable(r, q.seqno, |q.data|)
    ensures |q.data| <= r.rcvWnd
  {
    Near(Add32(q.seqno, |q.data|), Add32(r.rcvNxt, r.rcvWnd));
  }

  lemma Accepted(r: Pcb, taken: seq<u8>, iss: nat, stream: seq<u8>, wire: set<Packet>, q: Packet, max: int)
    requires ReceiverOk(r, taken, iss, stream, wire) && PacketOk(q, iss, stream, max) && q in wire && q.data != []
    requires q.seqno == r.rcvNxt && |q.data| <= r.rcvWnd
    ensures ReceiverOk(Queued(r, q), taken, iss, stream, wire)
  {
    assert EndsAt(q, q.seqno + |q.data|);
    BytesAppend(r.recved, Seg(q.seqno, q.data, 2));
    SliceJoin(stream, q.seqno - iss, q.seqno + |q.data| - iss);
  }

  lemma SliceJoin(s: seq<u8>, a: nat, b: nat)
    requires a <= b <= |s|
    ensures s[..a] + s[a..b] == s[..b]
  {
  }

  lemma DeliverBuf(r: Pcb, p: Pcb, taken: seq<u8>, iss: nat, stream: seq<u8>, wire: set<Packet>, q: Packet)
    requires ReceiverOk(r, taken, iss, stream, wire) && WireOk(p, iss, stream, wire) && q in wire && q.data != []
    requires Acceptable(r, q.seqno, |q.data|)
    ensures ReceiverOk(UpdateBuf(r, q.seqno, q.data), taken, iss, stream, wire)
    ensures UpdateBuf(r, q.seqno, q.data).rcvNxt >= r.rcvNxt
  {
    NeverInside(r, p, taken, iss, stream, wire, q);
    assert PacketOk(q, iss, stream, p.sndMax);
    UpdateBufIs(r, q);
    if q.seqno == r.rcvNxt {
      FitsWindow(r, q);
      Accepted(r, taken, iss, stream, wire, q, p.sndMax);
    }
  }

  lemma ReceiverGrows(r: Pcb, r': Pcb, taken: seq<u8>, iss: nat, stream: seq<u8>, more: seq<u8>, wire: set<Packet>, wire': set<Packet>)
    requires ReceiverOk(r, taken, iss, stream, wire) && wire <= wire' && iss + |stream + more| < 0x8000_0000
    requires r'.rcvNxt == r.rcvNxt && r'.rcvWnd == r.rcvWnd && r'.recved == r.recved
    ensures ReceiverOk(r', taken, iss, stream + more, wire')
  {
    var n := r.rcvNxt - iss;
    assert (stream + more)[..n] == stream[..n];
    if r.rcvNxt != iss {
      var q :| q in wire && EndsAt(q, r.rcvNxt);
      assert q in wire';
    }
  }

  // ---------------------------------------------------------------- the connection

  /** A host, the number of the first byte it sends, and all its application wrote so far;
      `taken` are the bytes that left its queue of received segments, `got` those copied to
      the application. */
  datatype Host = Host(pcb: Pcb, iss: nat, stream: seq<u8>, taken: seq<u8>, got: seq<u8>)

  /** Two hosts, and all packets ever sent from the first to the second and back. */
  datatype Conn = Conn(a: Host, b: Host, ab: set<Packet>, ba: set<Packet>)

  /** `Acknowledge`: tcp_send_ack, and the probes of the persist and keepalive timers, which
      differ in the sequence number only. */
  datatype Event =
    | Do(op: SenderOp)
    | Acknowledge(seqno: u32)
    | Deliver(q: Packet, wnd: nat)
    | Read(n: nat)

  predicate Possible(h: Host, e: Event, inbox: set<Packet>) {
    match e
    case Do(op) => !op.Ack? && Enabled(h.pcb, op)
    case Acknowledge(seqno) => seqno < 0x8000_0000
    case Deliver(q, _) => q in inbox
    case Read(n) => n > 0 && h.pcb.recved != []
  }

  function Emitted(p: Pcb, op: SenderOp): seq<Packet> {
    match op
    case Send(wnd) => Output(p, wnd).1
    case Retransmit(wnd) => Rexmit(p, wnd).1
    case _ => []
  }

  /** The host after the event, and the packets it sends. */
  function Happens(h: Host, e: Event, inbox: set<Packet>): (Host, seq<Packet>)
    requires Possible(h, e, inbox)
  {
    match e
    case Do(op) => (h.(pcb := Apply(h.pcb, op), stream := h.stream + Written(op)), Emitted(h.pcb, op))
    case Acknowledge(seqno) => (h, [Packet(seqno, [], h.pcb.rcvNxt)])
    case Deliver(q, wnd) => var (p, out) := Input(h.pcb, q, wnd); (h.(pcb := p), out)
    case Read(n) =>
      var (_, taken, got) := Received(h.pcb.recved, n);
      (h.(pcb := Receive(h.pcb, n), taken := h.taken + taken, got := h.got + got), [])
  }

  function Swap(c: Conn): Conn {
    Conn(c.b, c.a, c.ba, c.ab)
  }

  function StepA(c: Conn, e: Event): Conn
    requires Possible(c.a, e, c.ba)
  {
    var (h, out) := Happens(c.a, e, c.ba);
    c.(a := h, ab := c.ab + Packets(out))
  }

  predicate PossibleIn(c: Conn, atA: bool, e: Event) {
    if atA then Possible(c.a, e, c.ba) else Possible(c.b, e, c.ab)
  }

  function Step(c: Conn, atA: bool, e: Event): Conn
    requires PossibleIn(c, atA, e)
  {
    if atA then StepA(c, e) else Swap(StepA(Swap(c), e))
  }

  /** One direction: `s` sends to `r`, and `back` are the packets of `r`. */
  ghost predicate Direction(s: Host, r: Pcb, taken: seq<u8>, wire: set<Packet>, back: set<Packet>) {
    Side(s.pcb, s.iss, s.stream, wire) && ReceiverOk(r, taken, s.iss, s.stream, wire) &&
    s.pcb.sndUna <= r.rcvNxt && forall q :: q in back ==> q.ackno <= r.rcvNxt
  }

  ghost predicate ConnOk(c: Conn) {
    Direction(c.a, c.b.pcb, c.b.taken, c.ab, c.ba) && Direction(c.b, c.a.pcb, c.a.taken, c.ba, c.ab)
  }

  // ---------------------------------------------------------------- every step keeps it

  /** What a host does as a sender: its own direction, from the effect of the step on its side. */
  lemma SenderMoves(s: Host, s': Host, r: Pcb, taken: seq<u8>, wire: set<Packet>, back: set<Packet>, more: seq<u8>, out: seq<Packet>)
    requires Direction(s, r, taken, wire, back) && s'.iss == s.iss && s'.stream == s.stream + more
    requires Side(s'.pcb, s'.iss, s'.stream, wire + Packets(out)) && s'.pcb.sndUna <= r.rcvNxt
    ensures Direction(s', r, taken, wire + Packets(out), back)
  {
    ReceiverGrows(r, r, taken, s.iss, s.stream, more, wire, wire + Packets(out));
  }

  /** What it does as the receiver of the other direction: nothing but send its rcv_nxt. */
  lemma ReceiverSends(s: Host, r: Pcb, r': Pcb, taken: seq<u8>, wire: set<Packet>, back: set<Packet>, out: seq<Packet>)
    requires Direction(s, r, taken, wire, back) && Quiet(r, r') && forall q :: q in out ==> q.ackno == r.rcvNxt
    ensures Direction(s, r', taken, wire, back + Packets(out))
  {
    ReceiverGrows(r, r', taken, s.iss, s.stream, [], wire, wire);
    assert s.stream + [] == s.stream;
  }

  lemma DoSends(p: Pcb, op: SenderOp, iss: nat, stream: seq<u8>, wire: set<Packet>)
    requires Side(p, iss, stream, wire) && !op.Ack? && Enabled(p, op)
    ensures Sends(p, Apply(p, op), Emitted(p, op), iss, stream + Written(op), wire)
    ensures Apply(p, op).sndUna == p.sndUna
  {
    assert stream + [] == stream;
    match op
    case Write(data) =>
      EnqueueLoopSide(WithMss(p), iss, stream, wire, data, |data|);
      EnqueueUna(WithMss(p), data, |data|);
      SendsNothing(p, Enqueue(p, data), iss, stream + data, wire);
    case Send(wnd) => OutputSide(p, wnd, iss, stream, wire);
    case Retransmit(wnd) => RexmitSide(p, wnd, iss, stream, wire);
    case Release(i) =>
      ReleaseSide(p, i, iss, stream, wire);
      SendsNothing(p, Released(p, i), iss, stream, wire);
  }

  lemma {:induction false} EnqueueUna(p: Pcb, data: seq<u8>, size: nat)
    ensures EnqueueLoop(p, data, size).sndUna == p.sndUna
    decreases |data|
  {
    var rest := data[Room(p, |data|)..];
    if 0 < |rest| < |data| {
      EnqueueUna(EnqueueChunk(p, data, size), rest, size);
    }
  }

  lemma DoKeeps(c: Conn, op: SenderOp)
    requires ConnOk(c) && Possible(c.a, Do(op), c.ba)
    ensures ConnOk(StepA(c, Do(op)))
  {
    var c' := StepA(c, Do(op));
    DoSends(c.a.pcb, op, c.a.iss, c.a.stream, c.ab);
    SenderMoves(c.a, c'.a, c.b.pcb, c.b.taken, c.ab, c.ba, Written(op), Emitted(c.a.pcb, op));
    ReceiverSends(c.b, c.a.pcb, c'.a.pcb, c.a.taken, c.ba, c.ab, Emitted(c.a.pcb, op));
  }

  lemma AcknowledgeKeeps(c: Conn, seqno: u32)
    requires ConnOk(c) && seqno < 0x8000_0000
    ensures ConnOk(StepA(c, Acknowledge(seqno)))
  {
    var h := c.a;
    var q := Packet(seqno, [], h.pcb.rcvNxt);
    AddPacket(h.pcb, h.iss, h.stream, c.ab, q);
    assert Packets([q]) == {q};
    assert h.stream + [] == h.stream;
    SenderMoves(h, h, c.b.pcb, c.b.taken, c.ab, c.ba, [], [q]);
    ReceiverSends(c.b, h.pcb, h.pcb, h.taken, c.ba, c.ab, [q]);
  }

  /** The data of an accepted packet, for the host as receiver and as sender. */
  lemma DeliverData(s: Host, p: Pcb, taken: seq<u8>, wire: set<Packet>, back: set<Packet>, h: Host, mine: set<Packet>, q: Packet)
    requires Direction(s, p, taken, wire, back) && q in wire && q.data != [] && Acceptable(p, q.seqno, |q.data|)
    requires Side(p, h.iss, h.stream, mine)
    ensures var p' := UpdateBuf(p, q.seqno, q.data);
      Direction(s, p', taken, wire, back) && Side(p', h.iss, h.stream, mine) && p'.sndUna == p.sndUna
  {
    DeliverBuf(p, s.pcb, taken, s.iss, s.stream, wire, q);
    SameStores(p, UpdateBuf(p, q.seqno, q.data), h.iss, h.stream, mine);
  }

  lemma DeliverKeeps(c: Conn, q: Packet, wnd: nat)
    requires ConnOk(c) && q in c.ba
    ensures ConnOk(StepA(c, Deliver(q, wnd)))
  {
    var h, p, c' := c.a, c.a.pcb, StepA(c, Deliver(q, wnd));
    assert h.stream + [] == h.stream;
    if Acceptable(p, q.seqno, |q.data|) {
      var (p1, out) := UpdateAck(p, q.ackno, |q.data|, wnd);
      UpdateAckSide(p, q.ackno, |q.data|, wnd, h.iss, h.stream, c.ab);
      ReceiverSends(c.b, p, p1, h.taken, c.ba, c.ab, out);
      if q.data != [] {
        DeliverData(c.b, p1, h.taken, c.ba, c'.ab, h, c'.ab, q);
      }
      SenderMoves(h, c'.a, c.b.pcb, c.b.taken, c.ab, c.ba, [], out);
    } else {
      assert c.ab + Packets([]) == c.ab;
      assert h.(pcb := p) == h;
    }
  }

  /** What the loop copies are the first bytes of the queue, as many as the buffer holds; what
      leaves the queue are the segments that were copied whole. */
  lemma {:induction false} ReceivedIs(l: seq<Seg>, n: nat)
    ensures var (rest, taken, got) := Received(l, n);
      Bytes(l) == taken + Bytes(rest) && taken <= got <= Bytes(l) && |got| == (if n < |Bytes(l)| then n else |Bytes(l)|) &&
      forall s :: s in rest ==> s in l
  {
    if l != [] && n >= |l[0].data| {
      var (rest, taken, got) := Received(l[1..], n - |l[0].data|);
      ReceivedIs(l[1..], n - |l[0].data|);
      assert l[0].data + (taken + Bytes(rest)) == (l[0].data + taken) + Bytes(rest);
      PrefixUnder(l[0].data, taken, got);
      PrefixUnder(l[0].data, got, Bytes(l[1..]));
    } else if l != [] {
      assert l[0].data[..n] <= l[0].data <= Bytes(l);
    }
  }

  lemma PrefixUnder(a: seq<u8>, b: seq<u8>, c: seq<u8>)
    requires b <= c
    ensures a + b <= a + c
  {
  }

  lemma ReadKeeps(c: Conn, n: nat)
    requires ConnOk(c) && Possible(c.a, Read(n), c.ba)
    ensures ConnOk(StepA(c, Read(n)))
  {
    var p, c' := c.a.pcb, StepA(c, Read(n));
    var (rest, taken, got) := Received(p.recved, n);
    ReceivedIs(p.recved, n);
    assert c.a.taken + (taken + Bytes(rest)) == (c.a.taken + taken) + Bytes(rest);
    SameStores(p, Receive(p, n), c.a.iss, c.a.stream, c.ab);
    assert Packets([]) == {} && c'.ab == c.ab;
  }

  lemma StepKeeps(c: Conn, atA: bool, e: Event)
    requires ConnOk(c) && PossibleIn(c, atA, e)
    ensures ConnOk(Step(c, atA, e))
  {
    var d := if atA then c else Swap(c);
    match e
    case Do(op) => DoKeeps(d, op);
    case Acknowledge(seqno) => AcknowledgeKeeps(d, seqno);
    case Deliver(q, wnd) => DeliverKeeps(d, q, wnd);
    case Read(n) => ReadKeeps(d, n);
  }

  // ---------------------------------------------------------------- runs

  datatype Happening = At(atA: bool, e: Event)

  predicate PossibleRun(c: Conn, run: seq<Happening>)
    decreases |run|
  {
    run == [] ||
    (PossibleIn(c, run[0].atA, run[0].e) && PossibleRun(Step(c, run[0].atA, run[0].e), run[1..]))
  }

  function After(c: Conn, run: seq<Happening>): Conn
    requires PossibleRun(c, run)
    decreases |run|
  {
    if run == [] then c else After(Step(c, run[0].atA, run[0].e), run[1..])
  }

  /** A host when the handshake is over: nothing written, snd_max still the number of the SYN. */
  predicate Fresh(h: Host, peerIss: nat) {
    1 <= h.iss < 0x8000_0000 && h.stream == [] && TCP_DEFAULT_MSS <= h.pcb.sndMss &&
    h.pcb.sndUna == h.iss && h.pcb.sndNxt == h.iss && h.pcb.sndNbb == h.iss && h.pcb.sndMax == h.iss - 1 &&
    h.pcb.sndBuf == None && h.pcb.unsent == [] && h.pcb.unacked == [] &&
    h.pcb.rcvNxt == peerIss && h.pcb.rcvWnd == TCP_WINDOW && h.pcb.recved == [] && h.taken == [] && h.got == []
  }

  predicate Established(c: Conn) {
    Fresh(c.a, c.b.iss) && Fresh(c.b, c.a.iss) && c.ab == {} && c.ba == {}
  }

  lemma {:induction false} RunKeeps(c: Conn, run: seq<Happening>)
    requires ConnOk(c) && PossibleRun(c, run)
    ensures ConnOk(After(c, run))
    decreases |run|
  {
    if run != [] {
      StepKeeps(c, run[0].atA, run[0].e);
      RunKeeps(Step(c, run[0].atA, run[0].e), run[1..]);
    }
  }

  /** The bytes a host accepted, taken by the application or still queued for it. */
  function Arrived(h: Host): seq<u8> {
    h.taken + Bytes(h.pcb.recved)
  }

  /** What one direction promises: the bytes taken by the receiving application and those still
      queued for it are together a prefix of those written at the sender, and the sequence
      numbers are in order.  snd_max is not part of this order until the first data byte is
      sent: until then it is the number of the SYN, one less than iss. */
  predicate Delivered(s: Host, r: Host) {
    Arrived(r) <= s.stream && |Arrived(r)| == r.pcb.rcvNxt - s.iss &&
    |Bytes(r.pcb.recved)| <= TCP_WINDOW && r.pcb.rcvWnd <= TCP_WINDOW &&
    s.pcb.sndUna <= r.pcb.rcvNxt && s.pcb.sndMax <= s.pcb.sndNbb &&
    (r.pcb.rcvNxt <= s.pcb.sndMax <==> s.iss <= s.pcb.sndMax) && (s.pcb.sndUna <= s.pcb.sndMax <==> s.iss <= s.pcb.sndMax)
  }

  lemma DirectionDelivers(s: Host, r: Host, wire: set<Packet>, back: set<Packet>)
    requires Direction(s, r.pcb, r.taken, wire, back)
    ensures Delivered(s, r)
  {
    if r.pcb.rcvNxt != s.iss {
      var q :| q in wire && EndsAt(q, r.pcb.rcvNxt);
      assert PacketOk(q, s.iss, s.stream, s.pcb.sndMax);
    }
  }

  lemma EstablishedOk(c: Conn)
    requires Established(c)
    ensures ConnOk(c)
  {
    forall h, x | h == c.a || h == c.b ensures Holders(h.pcb, x) == 0 {
    }
  }

  /** Safety from end to end, over every run of the two hosts and the network. */
  lemma Safety(c: Conn, run: seq<Happening>)
    requires Established(c) && PossibleRun(c, run)
    ensures var d := After(c, run); Delivered(d.a, d.b) && Delivered(d.b, d.a)
  {
    hide Established, Direction, Delivered, Step;
    EstablishedOk(c);
    RunKeeps(c, run);
    var d := After(c, run);
    DirectionDelivers(d.a, d.b, d.ab, d.ba);
    DirectionDelivers(d.b, d.a, d.ba, d.ab);
  }

  /** When the handshake is over nothing was sent, and snd_una and the peer's rcv_nxt are ahead
      of snd_max. */
  lemma MaxBehind(c: Conn)
    requires Established(c)
    ensures c.a.pcb.sndMax < c.a.pcb.sndUna && c.a.pcb.sndMax < c.b.pcb.rcvNxt
  {
  }

  // ---------------------------------------------------------------- what the application reads

  /** The buffer is full at the end of a segment, or the queue is empty before it is full. */
  predicate EndsOnSegment(l: seq<Seg>, n: nat)
    decreases |l|
  {
    n == 0 || l == [] || (|l[0].data| <= n && EndsOnSegment(l[1..], n - |l[0].data|))
  }

  /** A call returns what leaves the queue exactly when its buffer ends where a segment does;
      else it returns bytes that the next call returns again. */
  lemma {:induction false} ReadsOnce(l: seq<Seg>, n: nat)
    ensures Received(l, n).2 == Received(l, n).1 <==> EndsOnSegment(l, n)
  {
    if l != [] && n >= |l[0].data| {
      var (rest, taken, got) := Received(l[1..], n - |l[0].data|);
      ReadsOnce(l[1..], n - |l[0].data|);
      if l[0].data + got == l[0].data + taken {
        assert (l[0].data + got)[|l[0].data|..] == got && (l[0].data + taken)[|l[0].data|..] == taken;
      }
      if n == 0 { NoMoreRead(l[1..]); }
    } else if l != [] {
      assert |l[0].data[..n]| == n;
    }
  }

  /** Two bytes queued and a buffer for one: the next call returns the first byte again. */
  lemma ReadTwice(a: u8, b: u8)
    ensures var l := [Seg(1, [a, b], 1)]; Received(l, 1) == (l, [], [a])
  {
    assert [a, b][..1] == [a];
  }

  lemma {:induction false} NoMoreRead(l: seq<Seg>)
    ensures Received(l, 0).2 == []
  {
    if l != [] && |l[0].data| == 0 { NoMoreRead(l[1..]); }
  }

  /** All reads of host a in the run end on segments. */
  predicate WholeReads(c: Conn, run: seq<Happening>)
    requires PossibleRun(c, run)
    decreases |run|
  {
    run == [] ||
    ((run[0].atA && run[0].e.Read? ==> EndsOnSegment(c.a.pcb.recved, run[0].e.n)) &&
     WholeReads(Step(c, run[0].atA, run[0].e), run[1..]))
  }

  lemma {:induction false} GotIsTaken(c: Conn, run: seq<Happening>)
    requires PossibleRun(c, run) && WholeReads(c, run) && c.a.got == c.a.taken
    ensures After(c, run).a.got == After(c, run).a.taken
    decreases |run|
  {
    if run != [] {
      if run[0].atA && run[0].e.Read? { ReadsOnce(c.a.pcb.recved, run[0].e.n); }
      GotIsTaken(Step(c, run[0].atA, run[0].e), run[1..]);
    }
  }

  /** Then the application reads a prefix of what the peer's application wrote. */
  lemma ApplicationReadsPrefix(c: Conn, run: seq<Happening>)
    requires Established(c) && PossibleRun(c, run) && WholeReads(c, run)
    ensures After(c, run).a.got <= After(c, run).b.stream
  {
    Safety(c, run);
    GotIsTaken(c, run);
  }
}
