/** What the operations of a host achieve: what is sent again, what an acknowledgement releases,
    what a packet delivers, and that a byte written can always reach the other host. */
module TcpDelivery {
  import opened Words
  import opened Lists
  import opened Tcp
  import opened TcpSender
  import opened TcpWire
  import opened TcpConnection
  import opened TcpProgress

  // ---------------------------------------------------------------- tcp_output

  /** The segments the driver does not hold, and those it holds. */
  function Idle(l: seq<Seg>): seq<Seg> {
    if l == [] then [] else (if l[0].count > 1 then [] else [l[0]]) + Idle(l[1..])
  }

  function Held(l: seq<Seg>): seq<Seg> {
    if l == [] then [] else (if l[0].count > 1 then [l[0]] else []) + Held(l[1..])
  }

  /** The driver holds a segment that was sent. */
  function Marked(l: seq<Seg>): seq<Seg> {
    if l == [] then [] else [l[0].(count := l[0].count + 1)] + Marked(l[1..])
  }

  /** How many segments of a line go out: none for a window below 536 bytes. */
  function Goes(p: Pcb, line: seq<Seg>, wnd: nat): (n: nat)
    ensures n <= |line|
  {
    if wnd < 536 then 0 else WithinWindow(line, Add32(p.sndUna, wnd))
  }

  /** Nothing changes but what sending changes. */
  predicate OnlySends(p: Pcb, p': Pcb) {
    p' == p.(sndNxt := p'.sndNxt, sndMax := p'.sndMax, unsent := p'.unsent, unacked := p'.unacked)
  }

  /** The first segments of `line` are sent, in order and each once; the others stay in line, and
      `kept` are the unacknowledged ones of before. */
  ghost predicate SendsLine(p: Pcb, line: seq<Seg>, wnd: nat, kept: multiset<Seg>, p': Pcb, out: seq<Packet>) {
    var n := Goes(p, line, wnd);
    out == PacketsOfFirst(line, n, p.rcvNxt) && p'.unsent == line[n..] &&
    multiset(p'.unacked) == kept + multiset(Marked(line[..n])) &&
    p'.sndNxt == (if n > 0 then End(line[n - 1]) else p.sndNxt) && OnlySends(p, p')
  }

  lemma {:induction false} InsertMultiset(l: seq<Seg>, s: Seg)
    ensures multiset(InsertSort(l, s)) == multiset(l) + multiset{s}
  {
    if l != [] && Signed(l[0].seqno) <= Signed(s.seqno) {
      InsertMultiset(l[1..], s);
      assert InsertSort(l, s) == [l[0]] + InsertSort(l[1..], s);
      assert l == [l[0]] + l[1..];
    }
  }

  lemma MarkedFirst(l: seq<Seg>, n: nat)
    requires 0 < n <= |l|
    ensures Marked(l[..n]) == [l[0].(count := l[0].count + 1)] + Marked(l[1..][..n - 1])
  {
    assert l[..n][1..] == l[1..][..n - 1];
  }

  lemma OneMore(kept: multiset<Seg>, t: Seg, l: seq<Seg>)
    ensures kept + multiset{t} + multiset(l) == kept + multiset([t] + l)
  {
  }

  /** The first n segments of p became unacknowledged. */
  ghost predicate Moves(p: Pcb, n: nat, p': Pcb) {
    n <= |p.unsent| && multiset(p'.unacked) == multiset(p.unacked) + multiset(Marked(p.unsent[..n])) &&
    p'.sndNxt == (if n > 0 then End(p.unsent[n - 1]) else p.sndNxt) && OnlySends(p, p')
  }

  lemma MovesFirst(p: Pcb, n: nat, p': Pcb)
    requires p.unsent != [] && n > 0 && Moves(SendHead(p), n - 1, p')
    ensures Moves(p, n, p')
  {
    hide Marked, InsertSort, SeqGt, End;
    var t := p.unsent[0].(count := p.unsent[0].count + 1);
    MarkedFirst(p.unsent, n);
    InsertMultiset(p.unacked, t);
    OneMore(multiset(p.unacked), t, Marked(p.unsent[1..][..n - 1]));
  }

  lemma {:induction false} OutputMoves(p: Pcb, limit: u32)
    ensures Moves(p, WithinWindow(p.unsent, limit), OutputLoop(p, limit).0)
    decreases |p.unsent|
  {
    if p.unsent != [] && !SeqGt(End(p.unsent[0]), limit) {
      OutputMoves(SendHead(p), limit);
      hide Moves, SeqGt, End;
      MovesFirst(p, WithinWindow(p.unsent, limit), OutputLoop(p, limit).0);
    } else {
      assert p.unsent[..0] == [];
    }
  }

  /** tcp_output. */
  lemma OutputIs(p: Pcb, wnd: nat)
    ensures SendsLine(p, p.unsent, wnd, multiset(p.unacked), Output(p, wnd).0, Output(p, wnd).1)
  {
    if wnd >= 536 {
      OutputSends(p, Add32(p.sndUna, wnd));
      OutputMoves(p, Add32(p.sndUna, wnd));
    } else {
      assert p.unsent[..0] == [];
    }
  }

  // ---------------------------------------------------------------- tcp_rexmit

  lemma Split(l: seq<Seg>, i: nat)
    requires i < |l|
    ensures Idle(l[i..]) == (if l[i].count > 1 then [] else [l[i]]) + Idle(l[i + 1..])
    ensures Held(l[i..]) == (if l[i].count > 1 then [l[i]] else []) + Held(l[i + 1..])
    ensures l[..i + 1] == l[..i] + [l[i]]
  {
    assert l[i..] == [l[i]] + l[i + 1..];
  }

  lemma {:induction false} RequeueIs(p: Pcb, i: nat)
    requires i <= |p.unacked|
    ensures var r := Requeue(p, i);
      multiset(r.unsent) == multiset(p.unsent) + multiset(Idle(p.unacked[i..])) &&
      r.unacked == p.unacked[..i] + Held(p.unacked[i..]) && r == p.(unsent := r.unsent, unacked := r.unacked)
    decreases |p.unacked| - i
  {
    if i < |p.unacked| {
      var s, rest := p.unacked[i], p.unacked[i + 1..];
      Split(p.unacked, i);
      if s.count > 1 {
        RequeueIs(p, i + 1);
        hide Idle, Held;
        assert [] + Idle(rest) == Idle(rest);
        Together(p.unacked[..i], [s], Held(rest));
      } else {
        RequeueIs(Back(p, i), i);
        InsertMultiset(p.unsent, s);
        hide Idle, Held, InsertSort;
        assert Back(p, i).unacked[i..] == rest && Back(p, i).unacked[..i] == p.unacked[..i];
        assert [] + Held(rest) == Held(rest);
        assert multiset([s] + Idle(rest)) == multiset{s} + multiset(Idle(rest));
      }
    } else {
      assert p.unacked[i..] == [] && p.unacked[..i] + [] == p.unacked;
    }
  }

  lemma RequeueAll(p: Pcb)
    ensures var r := Requeue(p, 0);
      multiset(r.unsent) == multiset(p.unsent) + multiset(Idle(p.unacked)) && r.unacked == Held(p.unacked) &&
      r == p.(unsent := r.unsent, unacked := r.unacked)
  {
    RequeueIs(p, 0);
    assert p.unacked[0..] == p.unacked && p.unacked[..0] == [];
  }

  /** tcp_rexmit lines up everything unsent and everything unacknowledged that the driver does not
      hold, in sequence order, and sends what the window admits. */
  lemma RexmitIs(p: Pcb, wnd: nat, iss: nat, stream: seq<u8>) returns (line: seq<Seg>)
    requires SenderInv(p, iss, stream)
    ensures multiset(line) == multiset(p.unsent) + multiset(Idle(p.unacked)) && Sorted(line)
    ensures SendsLine(p, line, wnd, multiset(Held(p.unacked)), Rexmit(p, wnd).0, Rexmit(p, wnd).1)
  {
    var r := Requeue(p, 0);
    RequeueAll(p);
    RequeueKeeps(p, 0, iss, stream);
    OutputIs(r, wnd);
    hide Requeue, Output, Stores, Numbers, Partition, Marked, PacketsOfFirst, Idle, Held, End, Add32, WithinWindow;
    line := r.unsent;
  }

  lemma {:induction false} IdleHas(l: seq<Seg>, s: Seg)
    requires s in l && s.count == 1
    ensures s in Idle(l)
  {
    if l[0] != s { IdleHas(l[1..], s); }
  }

  lemma {:induction false} PacketsHave(l: seq<Seg>, n: nat, ackno: u32, i: nat)
    requires i < n <= |l|
    ensures Packet(l[i].seqno, l[i].data, ackno) in PacketsOfFirst(l, n, ackno)
  {
    if i < n - 1 { PacketsHave(l, n - 1, ackno, i); }
  }

  /** No segment of a sorted list without overlaps ends behind a later one that is not empty. */
  lemma EndsInOrder(p: Pcb, i: nat, j: nat, iss: nat, stream: seq<u8>)
    requires SenderInv(p, iss, stream) && i <= j < |p.unsent| && p.unsent[j].data != []
    ensures p.unsent[i].seqno + |p.unsent[i].data| <= p.unsent[j].seqno + |p.unsent[j].data|
  {
    var s, t := p.unsent[i], p.unsent[j];
    if i < j && s.seqno + |s.data| > t.seqno {
      assert Holders(p, t.seqno) <= 1;
      CountBoth(p.unsent, i, j, t.seqno);
      assert false;
    }
  }

  lemma {:induction false} CountBoth(l: seq<Seg>, i: nat, j: nat, x: int)
    requires i < j < |l| && Holds(l[i], x) && Holds(l[j], x)
    ensures CountIn(l, x) >= 2
  {
    if i == 0 {
      assert l[j] == l[1..][j - 1];
      MemberCounts(l[1..], l[j], x);
    } else {
      CountBoth(l[1..], i - 1, j - 1, x);
    }
  }

  /** Where a segment stands in the line of tcp_rexmit. */
  lemma LineHas(p: Pcb, s: Seg) returns (j: nat)
    requires s in p.unsent || (s in p.unacked && s.count == 1)
    ensures j < |Requeue(p, 0).unsent| && Requeue(p, 0).unsent[j] == s
  {
    RequeueAll(p);
    if s in p.unacked && s.count == 1 { IdleHas(p.unacked, s); }
    hide Requeue, Idle, Held;
    assert s in multiset(Requeue(p, 0).unsent);
    j :| j < |Requeue(p, 0).unsent| && Requeue(p, 0).unsent[j] == s;
  }

  /** A sum that does not wrap. */
  lemma Unwrapped(a: u32, n: int)
    requires 0 <= a + n < 0x1_0000_0000
    ensures Add32(a, n) == a + n && (a + n) % 0x1_0000_0000 == a + n
  {
  }

  lemma WithinIs(p: Pcb, wnd: nat, iss: nat, stream: seq<u8>, i: nat)
    requires SenderInv(p, iss, stream) && p.sndUna + wnd < 0x8000_0000 && i < |p.unsent|
    ensures SeqGt(End(p.unsent[i]), Add32(p.sndUna, wnd)) <==> p.unsent[i].seqno + |p.unsent[i].data| > p.sndUna + wnd
  {
    hide SeqDiff, Add32, Partition, Sorted;
    var s := p.unsent[i];
    assert s in p.unsent;
    Unwrapped(s.seqno, |s.data|);
    Unwrapped(p.sndUna, wnd);
    Plain(End(s), p.sndUna + wnd);
  }

  /** A segment of a line goes out if it ends within the window; else it stays, behind or at the
      first one that does not. */
  lemma LineGoes(p: Pcb, wnd: nat, iss: nat, stream: seq<u8>, j: nat)
    requires SenderInv(p, iss, stream) && p.sndUna + wnd < 0x8000_0000 && wnd >= 536
    requires j < |p.unsent| && p.unsent[j].data != []
    ensures var s, n := p.unsent[j], WithinWindow(p.unsent, Add32(p.sndUna, wnd));
      if s.seqno + |s.data| <= p.sndUna + wnd then j < n
      else n <= j && p.unsent[n].seqno + |p.unsent[n].data| > p.sndUna + wnd
  {
    hide SenderInv, SeqGt, End, Add32;
    var n := WithinWindow(p.unsent, Add32(p.sndUna, wnd));
    WithinIs(p, wnd, iss, stream, j);
    if n < |p.unsent| {
      WithinIs(p, wnd, iss, stream, n);
      if n <= j { EndsInOrder(p, n, j, iss, stream); }
    }
  }

  /** A segment that is not acknowledged and that the driver does not hold is sent again if it ends
      within the window; else it is in line, behind or at the first one that does not. */
  lemma LostIsResent(p: Pcb, wnd: nat, iss: nat, stream: seq<u8>, s: Seg)
    requires SenderInv(p, iss, stream) && p.sndUna + wnd < 0x8000_0000 && wnd >= 536
    requires s.data != [] && (s in p.unsent || (s in p.unacked && s.count == 1))
    ensures var (p', out) := Rexmit(p, wnd);
      if s.seqno + |s.data| <= p.sndUna + wnd then Packet(s.seqno, s.data, p.rcvNxt) in out
      else s in p'.unsent && p'.unsent[0].seqno + |p'.unsent[0].data| > p.sndUna + wnd
  {
    var r := Requeue(p, 0);
    RequeueKeeps(p, 0, iss, stream);
    RequeueAll(p);
    var j := LineHas(p, s);
    LineGoes(r, wnd, iss, stream, j);
    OutputIs(r, wnd);
    hide SenderInv, Requeue, Output, WithinWindow, PacketsOfFirst, Marked;
    var n := Goes(r, r.unsent, wnd);
    if j < n {
      PacketsHave(r.unsent, n, p.rcvNxt, j);
    } else {
      assert r.unsent[n..][j - n] == s && r.unsent[n..][0] == r.unsent[n];
    }
  }

  // ---------------------------------------------------------------- acknowledgements

  /** A duplicate acknowledgement without data counts; from the third on everything lost goes out
      again, and before that nothing does. */
  lemma DuplicateResends(p: Pcb, ackno: u32, size: nat, wnd: nat, iss: nat, stream: seq<u8>, s: Seg)
    requires SenderInv(p, iss, stream) && ackno <= p.sndUna && p.sndUna + wnd < 0x8000_0000 && wnd >= 536
    requires s.data != [] && s in p.unacked && s.count == 1 && s.seqno + |s.data| <= p.sndUna + wnd
    ensures var (p', out) := UpdateAck(p, ackno, size, wnd);
      p'.dupacks == (if size > 0 then 0 else p.dupacks + 1) && p'.sndUna == p.sndUna &&
      if size == 0 && p.dupacks + 1 >= 3 then Packet(s.seqno, s.data, p.rcvNxt) in out else out == [] && s in p'.unacked
  {
    Plain(p.sndUna, ackno);
    var p1 := p.(dupacks := p.dupacks + 1);
    assert SenderInv(p1, iss, stream) by {
      forall x ensures Holders(p1, x) == Holders(p, x) {
      }
    }
    if size == 0 && p.dupacks + 1 >= 3 {
      LostIsResent(p1, wnd, iss, stream, s);
      RexmitOnlySends(p1, wnd);
    }
  }

  lemma RexmitOnlySends(p: Pcb, wnd: nat)
    ensures OnlySends(p, Rexmit(p, wnd).0)
  {
    RequeueAll(p);
    OutputIs(Requeue(p, 0), wnd);
    hide Requeue, Output, Idle, Held, PacketsOfFirst, Marked;
  }

  /** Nagle's buffer is released by an acknowledgement of everything sent. */
  predicate Flushes(p: Pcb, ackno: int) {
    p.sndBuf.Some? && p.sndBuf.value.data != [] && ackno == p.sndMax
  }

  /** A new acknowledgement moves snd_una, and leaves exactly the segments it does not cover; the
      buffer joins the unsent ones exactly if it is not empty and all that was sent is covered. */
  lemma NewAckIs(p: Pcb, ackno: u32, size: nat, wnd: nat, iss: nat, stream: seq<u8>)
    requires SenderInv(p, iss, stream) && p.sndUna < ackno <= p.sndNbb
    ensures var (p', out) := UpdateAck(p, ackno, size, wnd);
      out == [] && p'.sndUna == ackno && p'.dupacks == 0 && p'.sndBuf == (if Flushes(p, ackno) then None else p.sndBuf)
    ensures var p' := UpdateAck(p, ackno, size, wnd).0;
      (forall s :: s in p'.unacked <==> s in p.unacked && s.seqno + |s.data| > ackno) &&
      (forall s :: s in p'.unsent <==>
        (s in p.unsent && s.seqno + |s.data| > ackno) || (Flushes(p, ackno) && s == p.sndBuf.value))
  {
    Plain(p.sndUna, ackno);
    UnacknowledgedKeeps(p.unacked, ackno);
    UnacknowledgedKeeps(p.unsent, ackno);
    if Flushes(p, ackno) {
      InsertKeeps(Unacknowledged(p.unsent, ackno), p.sndBuf.value);
    }
  }

  // ---------------------------------------------------------------- tcp_input

  /** The packet ends within the window of what the host waits for. */
  predicate EndsInWindow(p: Pcb, q: Packet) {
    p.rcvNxt <= q.seqno + |q.data| <= p.rcvNxt + p.rcvWnd
  }

  /** It brings bytes the host waits for. */
  predicate Brings(p: Pcb, q: Packet) {
    EndsInWindow(p, q) && q.seqno <= p.rcvNxt < q.seqno + |q.data|
  }

  lemma AcceptableIs(p: Pcb, q: Packet)
    requires p.rcvNxt < 0x8000_0000 && 0 <= p.rcvWnd <= TCP_WINDOW && q.seqno + |q.data| < 0x8000_0000
    ensures Acceptable(p, q.seqno, |q.data|) <==> EndsInWindow(p, q)
  {
    hide SeqDiff, Add32;
    var end, edge := q.seqno + |q.data|, p.rcvNxt + p.rcvWnd;
    Unwrapped(q.seqno, |q.data|);
    Unwrapped(p.rcvNxt, p.rcvWnd);
    Plain(end, p.rcvNxt);
    if end - edge >= -0x8000_0000 {
      Near(end, edge);
    }
  }

  /** The receiving half of a host is as it was. */
  predicate SameReceiver(p: Pcb, p': Pcb) {
    p'.rcvNxt == p.rcvNxt && p'.rcvWnd == p.rcvWnd && p'.recved == p.recved
  }

  lemma UpdateAckReceiver(p: Pcb, ackno: u32, size: nat, wnd: nat)
    ensures SameReceiver(p, UpdateAck(p, ackno, size, wnd).0)
  {
    RexmitOnlySends(p.(dupacks := p.dupacks + 1), wnd);
    hide Rexmit, Unacknowledged, InsertSort, SeqGeq;
  }

  /** tcp_input.  A packet that ends outside the window changes nothing.  Of one that brings new
      bytes these join the queue, and the host waits for what follows them; the packet's
      acknowledgement counts whether or not it brings any. */
  lemma InputIs(p: Pcb, q: Packet, wnd: nat)
    requires p.rcvNxt < 0x8000_0000 && 0 <= p.rcvWnd <= TCP_WINDOW && q.seqno + |q.data| < 0x8000_0000
    requires p.sndUna < 0x8000_0000
    ensures !EndsInWindow(p, q) ==> Input(p, q, wnd) == (p, [])
    ensures EndsInWindow(p, q) && p.sndUna < q.ackno < 0x8000_0000 ==> Input(p, q, wnd).0.sndUna == q.ackno
    ensures EndsInWindow(p, q) && q.ackno <= p.sndUna ==> Input(p, q, wnd).0.sndUna == p.sndUna
    ensures EndsInWindow(p, q) ==> Input(p, q, wnd).1 == UpdateAck(p, q.ackno, |q.data|, wnd).1
    ensures var p' := Input(p, q, wnd).0;
      if Brings(p, q) then
        p'.rcvNxt == q.seqno + |q.data| && p'.rcvWnd == p.rcvWnd - (p'.rcvNxt - p.rcvNxt) &&
        multiset(p'.recved) == multiset(p.recved) + multiset{Seg(q.seqno, q.data[p.rcvNxt - q.seqno..], 2)}
      else SameReceiver(p, p')
  {
    AcceptableIs(p, q);
    hide Acceptable, UpdateAck, UpdateBuf;
    if EndsInWindow(p, q) {
      var (p1, out) := UpdateAck(p, q.ackno, |q.data|, wnd);
      UpdateAckReceiver(p, q.ackno, |q.data|, wnd);
      if q.ackno < 0x8000_0000 {
        Plain(p.sndUna, q.ackno);
        UpdateAckUna(p, q.ackno, |q.data|, wnd);
      }
      BufferIs(p1, q);
    }
  }

  lemma UpdateAckUna(p: Pcb, ackno: u32, size: nat, wnd: nat)
    requires p.sndUna < 0x8000_0000 && ackno < 0x8000_0000
    ensures UpdateAck(p, ackno, size, wnd).0.sndUna == if ackno > p.sndUna then ackno else p.sndUna
  {
    Plain(p.sndUna, ackno);
    RexmitOnlySends(p.(dupacks := p.dupacks + 1), wnd);
  }

  /** tcp_update_buf, for numbers that do not wrap. */
  lemma UpdateBufPlain(p: Pcb, q: Packet)
    requires p.rcvNxt < 0x8000_0000 && q.seqno + |q.data| < 0x8000_0000
    ensures UpdateBuf(p, q.seqno, q.data) ==
      if q.seqno <= p.rcvNxt < q.seqno + |q.data| then
        p.(rcvNxt := q.seqno + |q.data|, rcvWnd := p.rcvWnd - (q.seqno + |q.data| - p.rcvNxt),
           recved := InsertSort(p.recved, Seg(q.seqno, q.data[p.rcvNxt - q.seqno..], 2)))
      else p
  {
    hide SeqDiff, Add32, InsertSort;
    Unwrapped(q.seqno, |q.data|);
    Plain(q.seqno + |q.data|, p.rcvNxt);
    Plain(q.seqno, p.rcvNxt);
    if q.seqno <= p.rcvNxt { Unwrapped(p.rcvNxt, 0 - q.seqno as int); }
    assert q.data[0..] == q.data;
  }

  lemma BufferIs(p: Pcb, q: Packet)
    requires p.rcvNxt < 0x8000_0000 && q.seqno + |q.data| < 0x8000_0000 && p.rcvNxt <= q.seqno + |q.data|
    ensures var p' := if |q.data| > 0 then UpdateBuf(p, q.seqno, q.data) else p;
      p'.sndUna == p.sndUna &&
      if q.seqno <= p.rcvNxt < q.seqno + |q.data| then
        p'.rcvNxt == q.seqno + |q.data| && p'.rcvWnd == p.rcvWnd - (p'.rcvNxt - p.rcvNxt) &&
        multiset(p'.recved) == multiset(p.recved) + multiset{Seg(q.seqno, q.data[p.rcvNxt - q.seqno..], 2)}
      else SameReceiver(p, p')
  {
    UpdateBufPlain(p, q);
    hide UpdateBuf, InsertSort;
    if q.seqno <= p.rcvNxt < q.seqno + |q.data| {
      InsertMultiset(p.recved, Seg(q.seqno, q.data[p.rcvNxt - q.seqno..], 2));
    }
  }

  // ---------------------------------------------------------------- the order of the queue

  lemma JoinsAtEnd(l: seq<Seg>, s: Seg)
    requires s.seqno < 0x8000_0000 && forall t :: t in l ==> t.seqno < 0x8000_0000
    ensures InsertSort(l, s) == l + [s] <==> forall t :: t in l ==> t.seqno <= s.seqno
  {
    var p := InsertByAt(l, s, SegKey);
    if p < |l| {
      assert l[p] in l && l[p].seqno > s.seqno;
      assert InsertSort(l, s)[p] == s && (l + [s])[p] == l[p];
    } else {
      forall t | t in l ensures t.seqno <= s.seqno {
        var i :| 0 <= i < |l| && l[i] == t;
        assert SegKey(l[i]) <= SegKey(s);
      }
    }
  }

  /** A packet that begins before what the host waits for is cut, but keeps its number: its bytes
      come after those queued exactly when nothing queued begins later than it. */
  lemma CutPacketQueues(p: Pcb, q: Packet)
    requires p.rcvNxt < 0x8000_0000 && forall s :: s in p.recved ==> s.seqno < 0x8000_0000
    requires q.seqno <= p.rcvNxt < q.seqno + |q.data| < 0x8000_0000
    ensures UpdateBuf(p, q.seqno, q.data).recved == p.recved + [Seg(q.seqno, q.data[p.rcvNxt - q.seqno..], 2)] <==>
      forall s :: s in p.recved ==> s.seqno <= q.seqno
  {
    UpdateBufPlain(p, q);
    hide UpdateBuf, InsertSort;
    JoinsAtEnd(p.recved, Seg(q.seqno, q.data[p.rcvNxt - q.seqno..], 2));
  }

  /** Bytes 8 and 9 are queued; of a packet with bytes 7 to 10 the last is queued in front of them. */
  lemma CutPacketInFront(p: Pcb, data: seq<u8>)
    requires |data| == 4 && p.rcvNxt == 10 && p.recved == [Seg(8, data[1..3], 2)]
    ensures UpdateBuf(p, 7, data).recved == [Seg(7, data[3..], 2), Seg(8, data[1..3], 2)]
  {
    assert SeqDiff(11, 10) == 1 && SeqDiff(7, 10) == -3;
  }

  // ---------------------------------------------------------------- everything sent can arrive

  lemma {:induction false} ThenRun(c: Conn, run: seq<Happening>, more: seq<Happening>)
    requires PossibleRun(c, run) && PossibleRun(After(c, run), more)
    ensures PossibleRun(c, run + more) && After(c, run + more) == After(After(c, run), more)
    decreases |run|
  {
    hide Step, PossibleIn;
    if run == [] {
      assert run + more == more;
    } else {
      ThenRun(Step(c, run[0].atA, run[0].e), run[1..], more);
      assert (run + more)[1..] == run[1..] + more;
    }
  }

  lemma ThenStep(c: Conn, run: seq<Happening>, atA: bool, e: Event) returns (longer: seq<Happening>)
    requires PossibleRun(c, run) && PossibleIn(After(c, run), atA, e)
    ensures PossibleRun(c, longer) && After(c, longer) == Step(After(c, run), atA, e)
  {
    longer := run + [At(atA, e)];
    ThenRun(c, run, [At(atA, e)]);
  }

  /** The byte a host waits for is the first one of a segment of the other, if that has sent it or
      is ready to. */
  lemma NextSegment(c: Conn) returns (s: Seg)
    requires ConnOk(c) && c.b.pcb.rcvNxt < Edge(c.a.pcb)
    ensures (s in c.a.pcb.unsent || s in c.a.pcb.unacked) && s.seqno == c.b.pcb.rcvNxt && s.data != []
  {
    var p, x := c.a.pcb, c.b.pcb.rcvNxt;
    assert Holders(p, x) == 1;
    s := if CountIn(p.unsent, x) > 0 then FindHolder(p.unsent, x) else FindHolder(p.unacked, x);
    HolderIs(p.unsent, x);
    HolderIs(p.unacked, x);
    BeginsThere(c, s);
  }

  lemma BeginsThere(c: Conn, s: Seg)
    requires ConnOk(c) && (s in c.a.pcb.unsent || s in c.a.pcb.unacked) && Holds(s, c.b.pcb.rcvNxt)
    ensures s.seqno == c.b.pcb.rcvNxt
  {
    var x := c.b.pcb.rcvNxt;
    assert SegOk(s, c.a.iss, c.a.stream);
    if x != c.a.iss {
      var q :| q in c.ab && EndsAt(q, x);
      assert Apart(q.seqno, |q.data|, s.seqno, |s.data|);
    }
  }

  function FindHolder(l: seq<Seg>, x: int): Seg {
    if l == [] then Seg(0, [], 0) else if Holds(l[0], x) then l[0] else FindHolder(l[1..], x)
  }

  lemma {:induction false} HolderIs(l: seq<Seg>, x: int)
    ensures CountIn(l, x) > 0 ==> FindHolder(l, x) in l && Holds(FindHolder(l, x), x)
  {
    if l != [] { HolderIs(l[1..], x); }
  }

  lemma {:induction false} ReceivedAll(l: seq<Seg>, n: nat)
    requires |Bytes(l)| <= n
    ensures Received(l, n) == ([], Bytes(l), Bytes(l))
  {
    if l != [] { ReceivedAll(l[1..], n - |l[0].data|); }
  }

  /** The application reads all there is, and the window is open. */
  lemma ReadOut(c: Conn) returns (run: seq<Happening>)
    requires ConnOk(c)
    ensures PossibleRun(c, run)
    ensures var d := After(c, run);
      ConnOk(d) && d.a == c.a && d.b.pcb.rcvNxt == c.b.pcb.rcvNxt && d.b.pcb.rcvWnd == TCP_WINDOW
  {
    run := [];
    if c.b.pcb.recved != [] {
      var n := |Bytes(c.b.pcb.recved)| + 1;
      ReceivedAll(c.b.pcb.recved, n);
      run := ThenStep(c, run, false, Read(n));
    }
    TcpConnection.RunKeeps(c, run);
  }

  /** The driver lets go of a segment. */
  lemma LetGo(c: Conn, s: Seg) returns (run: seq<Happening>, t: Seg)
    requires ConnOk(c) && (s in c.a.pcb.unsent || s in c.a.pcb.unacked)
    ensures PossibleRun(c, run) && t.seqno == s.seqno && t.data == s.data
    ensures var d := After(c, run);
      ConnOk(d) && d.b == c.b && (t in d.a.pcb.unsent || (t in d.a.pcb.unacked && t.count == 1)) &&
      d.a == c.a.(pcb := c.a.pcb.(unacked := d.a.pcb.unacked)) && (Small(c.a.pcb) ==> Small(d.a.pcb))
  {
    run, t := [], s;
    if s !in c.a.pcb.unsent && s.count != 1 {
      var i: nat :| i < |c.a.pcb.unacked| && c.a.pcb.unacked[i] == s;
      t := s.(count := 1);
      hide ConnOk;
      run := ThenStep(c, run, true, Do(Release(i)));
      ReleaseIs(c, i);
    }
    TcpConnection.RunKeeps(c, run);
  }

  lemma ReleaseIs(c: Conn, i: nat)
    requires i < |c.a.pcb.unacked|
    ensures var d := StepA(c, Do(Release(i)));
      d.b == c.b && d.a == c.a.(pcb := Released(c.a.pcb, i)) && c.a.pcb.unacked[i].(count := 1) in d.a.pcb.unacked &&
      (Small(c.a.pcb) ==> Small(d.a.pcb))
  {
    assert c.a.stream + [] == c.a.stream;
    assert Released(c.a.pcb, i).unacked[i] == c.a.pcb.unacked[i].(count := 1);
  }

  /** Every segment fits the window of a receiver whose queue is empty. */
  predicate Small(p: Pcb) {
    (forall s :: s in p.unsent ==> |s.data| <= 8192) && forall s :: s in p.unacked ==> |s.data| <= 8192
  }

  lemma {:induction false} PartsIn(l: seq<Seg>, s: Seg)
    ensures s in Idle(l) || s in Held(l) ==> s in l
    ensures s in Marked(l) ==> exists t :: t in l && t.data == s.data
  {
    if l != [] {
      PartsIn(l[1..], s);
      assert s == l[0].(count := l[0].count + 1) ==> l[0] in l;
    }
  }

  lemma ResendStaysSmall(p: Pcb, wnd: nat, iss: nat, stream: seq<u8>)
    requires SenderInv(p, iss, stream) && Small(p)
    ensures Small(Rexmit(p, wnd).0) && Edge(Rexmit(p, wnd).0) == Edge(p)
  {
    var line := RexmitIs(p, wnd, iss, stream);
    hide Rexmit, SenderInv, Idle, Held, Marked, PacketsOfFirst, Goes;
    var p', n := Rexmit(p, wnd).0, Goes(p, line, wnd);
    forall s | s in line ensures |s.data| <= 8192 {
      assert s in multiset(line);
      PartsIn(p.unacked, s);
    }
    forall s | s in p'.unacked ensures |s.data| <= 8192 {
      assert s in multiset(p'.unacked);
      PartsIn(p.unacked, s);
      PartsIn(line[..n], s);
    }
  }

  /** The window that just admits a segment that starts at x and ends at y. */
  function WindowTo(una: int, y: int): nat {
    if y - una < 536 then 536 else y - una
  }

  /** A segment the driver does not hold goes over the wire again. */
  lemma Resend(c: Conn, s: Seg) returns (run: seq<Happening>)
    requires ConnOk(c) && (s in c.a.pcb.unsent || (s in c.a.pcb.unacked && s.count == 1)) && s.data != [] && Small(c.a.pcb)
    requires c.a.pcb.sndUna + WindowTo(c.a.pcb.sndUna, s.seqno + |s.data|) < 0x8000_0000
    ensures PossibleRun(c, run)
    ensures var d := After(c, run);
      ConnOk(d) && d.b == c.b && Packet(s.seqno, s.data, c.a.pcb.rcvNxt) in d.ab && Edge(d.a.pcb) == Edge(c.a.pcb) &&
      Small(d.a.pcb) && d.a.iss == c.a.iss && d.a.stream == c.a.stream
  {
    hide SenderInv, Small, Rexmit, WireOk, ReceiverOk;
    var p := c.a.pcb;
    var wnd := WindowTo(p.sndUna, s.seqno + |s.data|);
    LostIsResent(p, wnd, c.a.iss, c.a.stream, s);
    ResendStaysSmall(p, wnd, c.a.iss, c.a.stream);
    run := ThenStep(c, [], true, Do(Retransmit(wnd)));
    TcpConnection.RunKeeps(c, run);
    assert c.a.stream + [] == c.a.stream;
  }

  /** It is delivered. */
  lemma SendAgain(c: Conn, s: Seg) returns (run: seq<Happening>)
    requires ConnOk(c) && (s in c.a.pcb.unsent || (s in c.a.pcb.unacked && s.count == 1)) && s.data != []
    requires s.seqno == c.b.pcb.rcvNxt && |s.data| <= c.b.pcb.rcvWnd && Small(c.a.pcb)
    requires c.a.pcb.sndUna + WindowTo(c.a.pcb.sndUna, s.seqno + |s.data|) < 0x8000_0000
    ensures PossibleRun(c, run)
    ensures var d := After(c, run);
      ConnOk(d) && d.b.pcb.rcvNxt == s.seqno + |s.data| && Edge(d.a.pcb) == Edge(c.a.pcb) && Small(d.a.pcb) &&
      d.a.iss == c.a.iss && d.a.stream == c.a.stream
  {
    hide Small, Input;
    run := Resend(c, s);
    var d, q := After(c, run), Packet(s.seqno, s.data, c.a.pcb.rcvNxt);
    PacketPlain(d, q);
    InputIs(d.b.pcb, q, 0);
    hide ConnOk;
    run := ThenStep(c, run, false, Deliver(q, 0));
    TcpConnection.RunKeeps(c, run);
  }

  lemma PacketPlain(c: Conn, q: Packet)
    requires ConnOk(c) && q in c.ab
    ensures q.seqno + |q.data| < 0x8000_0000 && c.b.pcb.rcvNxt < 0x8000_0000 && c.b.pcb.sndUna < 0x8000_0000
    ensures 0 <= c.b.pcb.rcvWnd <= TCP_WINDOW
  {
    assert PacketOk(q, c.a.iss, c.a.stream, c.a.pcb.sndMax);
  }

  /** The next segment is delivered, whether or not it was sent or lost before. */
  lemma DeliverNext(c: Conn) returns (run: seq<Happening>)
    requires ConnOk(c) && Small(c.a.pcb) && c.b.pcb.rcvNxt < Edge(c.a.pcb) && Edge(c.a.pcb) + 536 < 0x8000_0000
    ensures PossibleRun(c, run)
    ensures var d := After(c, run);
      ConnOk(d) && d.b.pcb.rcvNxt > c.b.pcb.rcvNxt && Edge(d.a.pcb) == Edge(c.a.pcb) && Small(d.a.pcb) &&
      d.a.iss == c.a.iss && d.a.stream == c.a.stream
  {
    hide ConnOk, Small, PossibleRun, After;
    var r1 := ReadOut(c);
    var c1 := After(c, r1);
    var s := NextSegment(c1);
    FitsAlways(c1, s);
    var r2, t := LetGo(c1, s);
    var c2 := After(c1, r2);
    var r3 := SendAgain(c2, t);
    ThenRun(c1, r2, r3);
    ThenRun(c, r1, r2 + r3);
    run := r1 + (r2 + r3);
  }

  lemma FitsAlways(c: Conn, s: Seg)
    requires ConnOk(c) && Small(c.a.pcb) && (s in c.a.pcb.unsent || s in c.a.pcb.unacked) && s.seqno < Edge(c.a.pcb)
    requires s.seqno == c.b.pcb.rcvNxt && Edge(c.a.pcb) + 536 < 0x8000_0000
    ensures |s.data| <= TCP_WINDOW && c.a.pcb.sndUna + WindowTo(c.a.pcb.sndUna, s.seqno + |s.data|) < 0x8000_0000
  {
  }

  /** From every state there is a way on in which all that was written arrives, but for what
      Nagle's buffer holds: losses, and reads that were never made, are made up for. */
  lemma {:induction false} CanArrive(c: Conn) returns (run: seq<Happening>)
    requires ConnOk(c) && Small(c.a.pcb) && Edge(c.a.pcb) + 536 < 0x8000_0000
    ensures PossibleRun(c, run)
    ensures var d := After(c, run);
      ConnOk(d) && d.b.pcb.rcvNxt >= Edge(c.a.pcb) && Edge(d.a.pcb) == Edge(c.a.pcb) && d.a.iss == c.a.iss && d.a.stream == c.a.stream
    decreases Edge(c.a.pcb) - c.b.pcb.rcvNxt
  {
    hide ConnOk, Small;
    run := [];
    if c.b.pcb.rcvNxt < Edge(c.a.pcb) {
      run := DeliverNext(c);
      var more := CanArrive(After(c, run));
      ThenRun(c, run, more);
      run := run + more;
    }
  }

  /** After any run since the handshake. */
  lemma EverythingCanArrive(c: Conn, run: seq<Happening>) returns (more: seq<Happening>)
    requires Established(c) && PossibleRun(c, run)
    requires var p := After(c, run).a.pcb; Small(p) && Edge(p) + 536 < 0x8000_0000
    ensures PossibleRun(c, run + more)
    ensures var d, e := After(c, run), After(c, run + more);
      e.a.stream == d.a.stream && 0 <= Edge(d.a.pcb) - d.a.iss <= |d.a.stream| &&
      d.a.stream[..Edge(d.a.pcb) - d.a.iss] <= Arrived(e.b) <= d.a.stream
  {
    hide ConnOk, Small, Established;
    EstablishedOk(c);
    TcpConnection.RunKeeps(c, run);
    more := CanArrive(After(c, run));
    ThenRun(c, run, more);
    EdgeIs(After(c, run));
    ArrivedUpTo(After(c, run + more), Edge(After(c, run).a.pcb));
  }

  lemma EdgeIs(c: Conn)
    requires ConnOk(c)
    ensures 0 <= Edge(c.a.pcb) - c.a.iss <= |c.a.stream|
  {
  }

  lemma ArrivedUpTo(c: Conn, edge: int)
    requires ConnOk(c) && c.a.iss <= edge <= c.b.pcb.rcvNxt
    ensures edge - c.a.iss <= |c.a.stream| && c.a.stream[..edge - c.a.iss] <= Arrived(c.b) <= c.a.stream
  {
  }
}
