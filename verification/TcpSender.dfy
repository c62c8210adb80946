/** The sender keeps every byte not yet acknowledged in exactly one segment, with the
    contents the application gave it, through any run of its operations. */
module TcpSender {
  import opened Lists
  import opened Words
  import opened Tcp

  predicate Holds(s: Seg, x: int) {
    s.seqno <= x < s.seqno + |s.data|
  }

  /** How many segments of `l` hold the byte with sequence number `x`. */
  function CountIn(l: seq<Seg>, x: int): nat {
    if l == [] then 0 else (if Holds(l[0], x) then 1 else 0) + CountIn(l[1..], x)
  }

  function CountBuf(b: Option<Seg>, x: int): nat {
    if b.Some? && Holds(b.value, x) then 1 else 0
  }

  function Holders(p: Pcb, x: int): nat {
    CountIn(p.unsent, x) + CountIn(p.unacked, x) + CountBuf(p.sndBuf, x)
  }

  /** The segment carries exactly the bytes of the stream at its place. */
  ghost predicate SegOk(s: Seg, iss: nat, stream: seq<u8>) {
    iss <= s.seqno && s.seqno + |s.data| <= iss + |stream| &&
    s.data == stream[s.seqno - iss..s.seqno - iss + |s.data|]
  }

  /** Where the bytes end that are in the two lists: the start of the buffer being filled. */
  function Edge(p: Pcb): u32 {
    if p.sndBuf.Some? then p.sndBuf.value.seqno else p.sndNbb
  }

  ghost predicate ListOk(l: seq<Seg>, iss: nat, stream: seq<u8>, edge: int, most: nat) {
    forall s :: s in l ==> SegOk(s, iss, stream) && s.seqno + |s.data| <= edge && 1 <= s.count <= most
  }

  predicate Sorted(l: seq<Seg>) {
    forall i, j :: 0 <= i < j < |l| ==> l[i].seqno <= l[j].seqno
  }

  /** Every byte still to be acknowledged is in one segment, and none is in two. */
  ghost predicate Partition(p: Pcb) {
    forall x :: Holders(p, x) <= 1 && (p.sndUna <= x < p.sndNbb ==> Holders(p, x) == 1)
  }

  /** Before anything is sent, snd_max still is the number of the SYN, iss - 1. */
  predicate Numbers(p: Pcb, iss: nat, size: nat) {
    1 <= iss && iss + size < 0x8000_0000 && TCP_DEFAULT_MSS <= p.sndMss &&
    p.sndNbb == iss + size && iss <= p.sndUna <= p.sndNbb && iss <= p.sndNxt <= p.sndNbb &&
    iss - 1 <= p.sndMax <= Edge(p)
  }

  ghost predicate Stores(p: Pcb, iss: nat, stream: seq<u8>) {
    ListOk(p.unsent, iss, stream, Edge(p), 1) && ListOk(p.unacked, iss, stream, Edge(p), 2) &&
    (p.sndBuf.Some? ==>
      SegOk(p.sndBuf.value, iss, stream) && p.sndBuf.value.count == 1 && |p.sndBuf.value.data| < p.sndMss &&
      p.sndBuf.value.seqno + |p.sndBuf.value.data| == p.sndNbb) &&
    (forall s :: s in p.unacked ==> s.seqno + |s.data| <= p.sndMax || |s.data| == 0)
  }

  /** The sender after the bytes `stream` were enqueued; `iss` numbers the first one. */
  ghost predicate SenderInv(p: Pcb, iss: nat, stream: seq<u8>) {
    Numbers(p, iss, |stream|) && Stores(p, iss, stream) && Sorted(p.unsent) && Sorted(p.unacked) && Partition(p)
  }

  // ---------------------------------------------------------------- list facts

  lemma {:induction false} InsertKeeps(l: seq<Seg>, s: Seg)
    ensures forall t :: t in InsertSort(l, s) <==> t == s || t in l
    ensures |InsertSort(l, s)| == |l| + 1
  {
    if l != [] && Signed(l[0].seqno) <= Signed(s.seqno) {
      InsertKeeps(l[1..], s);
      assert InsertSort(l, s) == [l[0]] + InsertSort(l[1..], s);
      assert l == [l[0]] + l[1..];
    }
  }

  lemma {:induction false} InsertCount(l: seq<Seg>, s: Seg, x: int)
    ensures CountIn(InsertSort(l, s), x) == CountIn(l, x) + if Holds(s, x) then 1 else 0
  {
    if l == [] {
      assert InsertSort(l, s) == [s];
    } else if Signed(l[0].seqno) > Signed(s.seqno) {
      assert InsertSort(l, s)[1..] == l;
    } else {
      InsertCount(l[1..], s, x);
      assert InsertSort(l, s)[1..] == InsertSort(l[1..], s);
    }
  }

  /** With keys below 2^31 the insertion keeps the list in sequence order. */
  lemma {:induction false} InsertSorted(l: seq<Seg>, s: Seg)
    requires Sorted(l) && s.seqno < 0x8000_0000 && forall t :: t in l ==> t.seqno < 0x8000_0000
    ensures Sorted(InsertSort(l, s))
  {
    if l != [] && Signed(l[0].seqno) <= Signed(s.seqno) {
      var r := InsertSort(l[1..], s);
      InsertSorted(l[1..], s);
      InsertKeeps(l[1..], s);
      forall j | 0 <= j < |r| ensures l[0].seqno <= r[j].seqno {
        assert r[j] in r;
      }
    }
  }

  lemma {:induction false} MemberCounts(l: seq<Seg>, s: Seg, x: int)
    requires s in l && Holds(s, x)
    ensures CountIn(l, x) >= 1
  {
    if l[0] != s {
      MemberCounts(l[1..], s, x);
    }
  }

  lemma {:induction false} NoneCounts(l: seq<Seg>, x: int)
    requires forall s :: s in l ==> !Holds(s, x)
    ensures CountIn(l, x) == 0
  {
    if l != [] {
      assert l[0] in l;
      NoneCounts(l[1..], x);
    }
  }

  lemma {:induction false} RemoveCount(l: seq<Seg>, i: nat, x: int)
    requires i < |l|
    ensures CountIn(l, x) == CountIn(l[..i] + l[i + 1..], x) + if Holds(l[i], x) then 1 else 0
  {
    var r := l[..i] + l[i + 1..];
    if i == 0 {
      assert r == l[1..];
    } else {
      RemoveCount(l[1..], i - 1, x);
      assert r[1..] == l[1..][..i - 1] + l[1..][i..];
    }
  }

  lemma SortedTail(l: seq<Seg>, i: nat)
    requires Sorted(l) && i < |l|
    ensures Sorted(l[..i] + l[i + 1..])
  {
  }

  /** A stream only grows, so what a segment carries stays right. */
  lemma SegOkGrows(s: Seg, iss: nat, stream: seq<u8>, more: seq<u8>)
    requires SegOk(s, iss, stream)
    ensures SegOk(s, iss, stream + more)
  {
    var a, b := s.seqno - iss, s.seqno - iss + |s.data|;
    assert (stream + more)[a..b] == stream[a..b];
  }

  lemma ListOkGrows(l: seq<Seg>, iss: nat, stream: seq<u8>, more: seq<u8>, edge: int, edge': int, most: nat)
    requires ListOk(l, iss, stream, edge, most) && edge <= edge'
    ensures ListOk(l, iss, stream + more, edge', most)
  {
    forall s | s in l ensures SegOk(s, iss, stream + more) {
      SegOkGrows(s, iss, stream, more);
    }
  }

  // ---------------------------------------------------------------- enqueue

  /** The segment being filled and the edge of the lists, after one chunk. */
  lemma FilledOk(p: Pcb, iss: nat, stream: seq<u8>, chunk: seq<u8>)
    requires SenderInv(p, iss, stream) && iss + |stream| + |chunk| < 0x8000_0000
    ensures var b := Filling(p).(data := Filling(p).data + chunk);
      SegOk(b, iss, stream + chunk) && b.count == 1 && b.seqno == Edge(p) && b.seqno + |b.data| == iss + |stream + chunk|
    ensures Add32(p.sndNbb, |chunk|) == iss + |stream + chunk|
  {
    var s := Filling(p);
    var a, n := s.seqno - iss, |stream|;
    assert SegOk(s, iss, stream) && a + |s.data| == n;
    assert (stream + chunk)[a..n + |chunk|] == stream[a..n] + chunk;
  }

  lemma EnqueueChunkStores(p: Pcb, iss: nat, stream: seq<u8>, data: seq<u8>, size: nat)
    requires SenderInv(p, iss, stream) && iss + |stream| + |data| < 0x8000_0000
    ensures var p', stream' := EnqueueChunk(p, data, size), stream + data[..Room(p, |data|)];
      Numbers(p', iss, |stream'|) && Stores(p', iss, stream')
  {
    var chunk := data[..Room(p, |data|)];
    FilledOk(p, iss, stream, chunk);
    var p' := EnqueueChunk(p, data, size);
    ListOkGrows(p.unsent, iss, stream, chunk, Edge(p), Edge(p'), 1);
    ListOkGrows(p.unacked, iss, stream, chunk, Edge(p), Edge(p'), 2);
    InsertKeeps(p.unsent, Filling(p).(data := Filling(p).data + chunk));
  }

  lemma EnqueueChunkKeeps(p: Pcb, iss: nat, stream: seq<u8>, data: seq<u8>, size: nat)
    requires SenderInv(p, iss, stream) && iss + |stream| + |data| < 0x8000_0000
    ensures SenderInv(EnqueueChunk(p, data, size), iss, stream + data[..Room(p, |data|)])
    ensures data != [] ==> Room(p, |data|) > 0
    ensures EnqueueChunk(p, data, size).sndMss == p.sndMss
  {
    EnqueueChunkStores(p, iss, stream, data, size);
    var chunk := data[..Room(p, |data|)];
    var p' := EnqueueChunk(p, data, size);
    var b := Filling(p).(data := Filling(p).data + chunk);
    InsertSorted(p.unsent, b);
    forall x ensures Holders(p', x) <= 1 && (p'.sndUna <= x < p'.sndNbb ==> Holders(p', x) == 1) {
      FilledHolders(p, iss, stream, chunk, x);
      InsertCount(p.unsent, b, x);
    }
  }

  lemma FilledHolders(p: Pcb, iss: nat, stream: seq<u8>, chunk: seq<u8>, x: int)
    requires SenderInv(p, iss, stream) && iss + |stream| + |chunk| < 0x8000_0000
    ensures var b := Filling(p).(data := Filling(p).data + chunk);
      var n := CountIn(p.unsent, x) + CountIn(p.unacked, x) + CountBuf(Some(b), x);
      n <= 1 && (p.sndUna <= x < p.sndNbb + |chunk| ==> n == 1)
  {
    var b := Filling(p).(data := Filling(p).data + chunk);
    assert Holders(p, x) <= 1;
    if x >= p.sndNbb {
      NoneCounts(p.unsent, x);
      NoneCounts(p.unacked, x);
    } else {
      assert Holds(b, x) <==> CountBuf(p.sndBuf, x) == 1;
    }
  }

  lemma {:induction false} EnqueueLoopKeeps(p: Pcb, iss: nat, stream: seq<u8>, data: seq<u8>, size: nat)
    requires SenderInv(p, iss, stream) && iss + |stream| + |data| < 0x8000_0000
    ensures SenderInv(EnqueueLoop(p, data, size), iss, stream + data)
    decreases |data|
  {
    var n := Room(p, |data|);
    EnqueueChunkKeeps(p, iss, stream, data, size);
    var p1, rest := EnqueueChunk(p, data, size), data[n..];
    assert data == data[..n] + rest;
    assert stream + data[..n] + rest == stream + data;
    if |rest| == 0 {
      assert stream + data[..n] == stream + data;
    } else {
      EnqueueLoopKeeps(p1, iss, stream + data[..n], rest, size);
    }
  }

  /** tcp_enqueue adds its bytes to the stream, whatever the boundaries it draws. */
  lemma EnqueueKeeps(p: Pcb, iss: nat, stream: seq<u8>, data: seq<u8>)
    requires SenderInv(p, iss, stream) && iss + |stream| + |data| < 0x8000_0000
    ensures SenderInv(Enqueue(p, data), iss, stream + data)
  {
    EnqueueLoopKeeps(WithMss(p), iss, stream, data, |data|);
  }

  // ---------------------------------------------------------------- output and retransmission

  lemma SendHeadNumbers(p: Pcb, iss: nat, stream: seq<u8>)
    requires Numbers(p, iss, |stream|) && Stores(p, iss, stream) && p.unsent != []
    ensures Numbers(SendHead(p), iss, |stream|) && SendHead(p).sndMax >= p.sndMax
    ensures p.unsent[0].seqno + |p.unsent[0].data| <= SendHead(p).sndMax && p.unsent[0] in p.unsent
  {
    assert p.unsent[0] in p.unsent;
    Plain(End(p.unsent[0]), p.sndMax);
  }

  lemma SendHeadStores(p: Pcb, iss: nat, stream: seq<u8>)
    requires Numbers(p, iss, |stream|) && Stores(p, iss, stream) && p.unsent != []
    ensures Stores(SendHead(p), iss, stream)
  {
    SendHeadNumbers(p, iss, stream);
    var p', t := SendHead(p), p.unsent[0].(count := 2);
    InsertKeeps(p.unacked, t);
    assert SegOk(t, iss, stream);
    forall u | u in p'.unacked
      ensures SegOk(u, iss, stream) && u.seqno + |u.data| <= Edge(p') && 1 <= u.count <= 2 && (u.seqno + |u.data| <= p'.sndMax || |u.data| == 0)
    {
      assert u == t || u in p.unacked;
    }
  }

  lemma SendHeadPartition(p: Pcb)
    requires Partition(p) && p.unsent != []
    ensures Partition(SendHead(p))
  {
    forall x ensures Holders(SendHead(p), x) == Holders(p, x) {
      InsertCount(p.unacked, p.unsent[0].(count := p.unsent[0].count + 1), x);
    }
  }

  lemma SendHeadKeeps(p: Pcb, iss: nat, stream: seq<u8>)
    requires SenderInv(p, iss, stream) && p.unsent != []
    ensures SenderInv(SendHead(p), iss, stream) && SendHead(p).sndMax >= p.sndMax && p.unsent[0].count == 1
  {
    SendHeadNumbers(p, iss, stream);
    SendHeadStores(p, iss, stream);
    SendHeadPartition(p);
    var s := p.unsent[0];
    InsertSorted(p.unacked, s.(count := s.count + 1));
  }

  lemma {:induction false} OutputLoopKeeps(p: Pcb, limit: u32, iss: nat, stream: seq<u8>)
    requires SenderInv(p, iss, stream)
    ensures SenderInv(OutputLoop(p, limit).0, iss, stream)
    decreases |p.unsent|
  {
    if p.unsent != [] && !SeqGt(End(p.unsent[0]), limit) {
      SendHeadKeeps(p, iss, stream);
      OutputLoopKeeps(SendHead(p), limit, iss, stream);
    }
  }

  function Back(p: Pcb, i: nat): Pcb
    requires i < |p.unacked|
  {
    p.(unacked := p.unacked[..i] + p.unacked[i + 1..], unsent := InsertSort(p.unsent, p.unacked[i]))
  }

  lemma BackKeeps(p: Pcb, i: nat, iss: nat, stream: seq<u8>)
    requires SenderInv(p, iss, stream) && i < |p.unacked| && p.unacked[i].count == 1
    ensures SenderInv(Back(p, i), iss, stream)
  {
    var p', s := Back(p, i), p.unacked[i];
    assert s in p.unacked;
    InsertKeeps(p.unsent, s);
    InsertSorted(p.unsent, s);
    SortedTail(p.unacked, i);
    forall t | t in p'.unacked ensures t in p.unacked {
    }
    forall x ensures Holders(p', x) == Holders(p, x) {
      InsertCount(p.unsent, s, x);
      RemoveCount(p.unacked, i, x);
    }
  }

  lemma {:induction false} RequeueKeeps(p: Pcb, i: nat, iss: nat, stream: seq<u8>)
    requires SenderInv(p, iss, stream) && i <= |p.unacked|
    ensures SenderInv(Requeue(p, i), iss, stream)
    decreases |p.unacked| - i
  {
    if i < |p.unacked| {
      assert p.unacked[i] in p.unacked;
      if p.unacked[i].count > 1 {
        RequeueKeeps(p, i + 1, iss, stream);
      } else {
        BackKeeps(p, i, iss, stream);
        RequeueKeeps(Back(p, i), i, iss, stream);
      }
    }
  }

  /** What the driver still holds stays in `unacked`; everything else is sent again. */
  lemma {:induction false} RequeueLeavesTheDriversOnly(p: Pcb, i: nat)
    requires i <= |p.unacked| && forall j :: 0 <= j < i ==> p.unacked[j].count > 1
    ensures forall s :: s in Requeue(p, i).unacked ==> s.count > 1
    decreases |p.unacked| - i
  {
    if i < |p.unacked| {
      RequeueLeavesTheDriversOnly(if p.unacked[i].count > 1 then p else Back(p, i), if p.unacked[i].count > 1 then i + 1 else i);
    }
  }

  // ---------------------------------------------------------------- acknowledgements

  lemma {:induction false} UnacknowledgedKeeps(l: seq<Seg>, ackno: u32)
    requires ackno < 0x8000_0000 && forall s :: s in l ==> s.seqno + |s.data| < 0x8000_0000
    ensures forall s :: s in Unacknowledged(l, ackno) <==> s in l && s.seqno + |s.data| > ackno
  {
    if l != [] {
      assert l[0] in l;
      Plain(End(l[0]), ackno);
      UnacknowledgedKeeps(l[1..], ackno);
      assert l == [l[0]] + l[1..];
    }
  }

  predicate AtLeast(l: seq<Seg>, low: int) {
    forall i :: 0 <= i < |l| ==> l[i].seqno >= low
  }

  lemma {:induction false} UnacknowledgedSorted(l: seq<Seg>, ackno: u32, low: int)
    requires Sorted(l) && AtLeast(l, low)
    ensures Sorted(Unacknowledged(l, ackno)) && AtLeast(Unacknowledged(l, ackno), low)
  {
    if l != [] {
      UnacknowledgedSorted(l[1..], ackno, l[0].seqno);
    }
  }

  lemma {:induction false} UnacknowledgedCount(l: seq<Seg>, ackno: u32, x: int)
    requires ackno < 0x8000_0000 && forall s :: s in l ==> s.seqno + |s.data| < 0x8000_0000
    ensures CountIn(Unacknowledged(l, ackno), x) <= CountIn(l, x)
    ensures x >= ackno ==> CountIn(Unacknowledged(l, ackno), x) == CountIn(l, x)
  {
    if l != [] {
      assert l[0] in l;
      Plain(End(l[0]), ackno);
      UnacknowledgedCount(l[1..], ackno, x);
      assert Unacknowledged(l, ackno) == [l[0]] + Unacknowledged(l[1..], ackno) ||
        Unacknowledged(l, ackno) == Unacknowledged(l[1..], ackno);
    }
  }

  lemma FlushKeeps(p: Pcb, ackno: u32, iss: nat, stream: seq<u8>)
    requires SenderInv(p, iss, stream)
    ensures SenderInv(Flush(p, ackno), iss, stream)
  {
    if p.sndBuf.Some? {
      var s := p.sndBuf.value;
      InsertKeeps(p.unsent, s);
      InsertSorted(p.unsent, s);
      forall x ensures CountIn(InsertSort(p.unsent, s), x) + CountIn(p.unacked, x) == Holders(p, x) {
        InsertCount(p.unsent, s, x);
      }
    }
  }

  /** The sender's part of tcp_update_ack for new data acknowledged. */
  function Advance(p: Pcb, ackno: u32): Pcb {
    p.(dupacks := 0, sndUna := ackno,
       unacked := Unacknowledged(p.unacked, ackno), unsent := Unacknowledged(p.unsent, ackno))
  }

  lemma AdvanceKeeps(p: Pcb, ackno: u32, iss: nat, stream: seq<u8>)
    requires SenderInv(p, iss, stream) && p.sndUna <= ackno <= p.sndNbb
    ensures SenderInv(Advance(p, ackno), iss, stream)
  {
    var p' := Advance(p, ackno);
    UnacknowledgedKeeps(p.unacked, ackno);
    UnacknowledgedKeeps(p.unsent, ackno);
    UnacknowledgedSorted(p.unacked, ackno, 0);
    UnacknowledgedSorted(p.unsent, ackno, 0);
    forall x ensures Holders(p', x) <= 1 && (ackno <= x < p.sndNbb ==> Holders(p', x) == 1) {
      UnacknowledgedCount(p.unacked, ackno, x);
      UnacknowledgedCount(p.unsent, ackno, x);
      assert Holders(p, x) <= 1;
    }
  }

  lemma RexmitKeeps(p: Pcb, wnd: nat, iss: nat, stream: seq<u8>)
    requires SenderInv(p, iss, stream)
    ensures SenderInv(Rexmit(p, wnd).0, iss, stream)
  {
    RequeueKeeps(p, 0, iss, stream);
    var p' := Requeue(p, 0);
    OutputLoopKeeps(p', Add32(p'.sndUna, wnd), iss, stream);
  }

  /** tcp_update_ack believes every acknowledgement.  The stores stay right exactly when a
      new one does not run ahead of the bytes that were enqueued. */
  lemma UpdateAckKeeps(p: Pcb, ackno: u32, size: nat, wnd: nat, iss: nat, stream: seq<u8>)
    requires SenderInv(p, iss, stream)
    ensures SenderInv(UpdateAck(p, ackno, size, wnd).0, iss, stream) <==> (!SeqGeq(p.sndUna, ackno) ==> ackno <= p.sndNbb)
  {
    var p' := UpdateAck(p, ackno, size, wnd).0;
    if SeqGeq(p.sndUna, ackno) {
      DuplicateKeeps(p, ackno, size, wnd, iss, stream);
    } else if ackno <= p.sndNbb {
      Plain(p.sndUna, ackno);
      AdvanceKeeps(p, ackno, iss, stream);
      FlushKeeps(Advance(p, ackno), ackno, iss, stream);
    } else {
      assert p'.sndUna == ackno && p'.sndNbb == p.sndNbb;
    }
  }

  /** A host after the handshake, with nothing to send. */
  function Silent(iss: u32, wnd: nat): Pcb
    requires iss > 0
  {
    Pcb(iss, iss, iss - 1, iss, TCP_DEFAULT_MSS, false, 0, None, [], [], 1, wnd, [])
  }

  /** It believes an acknowledgement one past what it has to send. */
  lemma AckAhead(iss: u32, wnd: nat)
    requires 1 <= iss < 0x8000_0000
    ensures SenderInv(Silent(iss, wnd), iss, [])
    ensures UpdateAck(Silent(iss, wnd), iss + 1, 0, wnd).0.sndUna == iss + 1
    ensures !SenderInv(UpdateAck(Silent(iss, wnd), iss + 1, 0, wnd).0, iss, [])
  {
    var p := Silent(iss, wnd);
    UpdateAckKeeps(p, iss + 1, 0, wnd, iss, []);
  }

  lemma DuplicateKeeps(p: Pcb, ackno: u32, size: nat, wnd: nat, iss: nat, stream: seq<u8>)
    requires SenderInv(p, iss, stream) && SeqGeq(p.sndUna, ackno)
    ensures SenderInv(UpdateAck(p, ackno, size, wnd).0, iss, stream)
  {
    var p1 := p.(dupacks := if size > 0 then 0 else p.dupacks + 1);
    assert SenderInv(p1, iss, stream) by {
      forall x ensures Holders(p1, x) == Holders(p, x) {
      }
    }
    RexmitKeeps(p1, wnd, iss, stream);
  }

  // ---------------------------------------------------------------- runs

  /** What can happen to a sender. `Release`: the driver has put the i-th unacknowledged
      segment on the wire and drops its hold. */
  datatype SenderOp =
    | Write(data: seq<u8>)
    | Send(wnd: nat)
    | Retransmit(wnd: nat)
    | Release(i: nat)
    | Ack(ackno: u32, size: nat, window: nat)

  function Released(p: Pcb, i: nat): Pcb
    requires i < |p.unacked|
  {
    p.(unacked := p.unacked[i := p.unacked[i].(count := 1)])
  }

  predicate Enabled(p: Pcb, op: SenderOp) {
    match op
    case Write(data) => p.sndNbb + |data| < 0x8000_0000
    case Release(i) => i < |p.unacked|
    case Ack(ackno, _, _) => !SeqGeq(p.sndUna, ackno) ==> ackno <= p.sndNbb
    case _ => true
  }

  function Apply(p: Pcb, op: SenderOp): Pcb
    requires Enabled(p, op)
  {
    match op
    case Write(data) => Enqueue(p, data)
    case Send(wnd) => Output(p, wnd).0
    case Retransmit(wnd) => Rexmit(p, wnd).0
    case Release(i) => Released(p, i)
    case Ack(ackno, size, wnd) => UpdateAck(p, ackno, size, wnd).0
  }

  function Written(op: SenderOp): seq<u8> {
    if op.Write? then op.data else []
  }

  lemma {:induction false} SetCount(l: seq<Seg>, i: nat, n: nat, x: int)
    requires i < |l|
    ensures CountIn(l[i := l[i].(count := n)], x) == CountIn(l, x)
  {
    if i > 0 {
      SetCount(l[1..], i - 1, n, x);
      assert l[i := l[i].(count := n)][1..] == l[1..][i - 1 := l[i].(count := n)];
    } else {
      assert l[i := l[i].(count := n)][1..] == l[1..];
    }
  }

  lemma ReleaseKeeps(p: Pcb, i: nat, iss: nat, stream: seq<u8>)
    requires SenderInv(p, iss, stream) && i < |p.unacked|
    ensures SenderInv(Released(p, i), iss, stream)
  {
    var p' := Released(p, i);
    assert p.unacked[i] in p.unacked;
    forall x ensures Holders(p', x) == Holders(p, x) {
      SetCount(p.unacked, i, 1, x);
    }
  }

  lemma ApplyKeeps(p: Pcb, op: SenderOp, iss: nat, stream: seq<u8>)
    requires SenderInv(p, iss, stream) && Enabled(p, op)
    ensures SenderInv(Apply(p, op), iss, stream + Written(op))
  {
    assert stream + [] == stream;
    match op
    case Write(data) => EnqueueKeeps(p, iss, stream, data);
    case Send(wnd) => OutputLoopKeeps(p, Add32(p.sndUna, wnd), iss, stream);
    case Retransmit(wnd) => RexmitKeeps(p, wnd, iss, stream);
    case Release(i) => ReleaseKeeps(p, i, iss, stream);
    case Ack(ackno, size, wnd) => UpdateAckKeeps(p, ackno, size, wnd, iss, stream);
  }

  predicate AllEnabled(p: Pcb, ops: seq<SenderOp>)
    decreases |ops|
  {
    ops == [] || (Enabled(p, ops[0]) && AllEnabled(Apply(p, ops[0]), ops[1..]))
  }

  function RunAll(p: Pcb, ops: seq<SenderOp>): Pcb
    requires AllEnabled(p, ops)
    decreases |ops|
  {
    if ops == [] then p else RunAll(Apply(p, ops[0]), ops[1..])
  }

  function AllWritten(ops: seq<SenderOp>): seq<u8> {
    if ops == [] then [] else Written(ops[0]) + AllWritten(ops[1..])
  }

  lemma WrittenFirst(ops: seq<SenderOp>, stream: seq<u8>)
    requires ops != []
    ensures stream + AllWritten(ops) == stream + Written(ops[0]) + AllWritten(ops[1..])
  {
  }

  lemma {:induction false} RunKeeps(p: Pcb, ops: seq<SenderOp>, iss: nat, stream: seq<u8>, all: seq<u8>)
    requires SenderInv(p, iss, stream) && AllEnabled(p, ops) && all == stream + AllWritten(ops)
    ensures SenderInv(RunAll(p, ops), iss, all)
    decreases |ops|
  {
    if ops == [] {
      assert stream + [] == stream;
    } else {
      WrittenFirst(ops, stream);
      ApplyKeeps(p, ops[0], iss, stream);
      RunKeeps(Apply(p, ops[0]), ops[1..], iss, stream + Written(ops[0]), all);
    }
  }

  /** Conservation: after any run every byte written and not acknowledged is held by exactly
      one segment, and every segment holds what was written at its place. */
  lemma Conservation(p: Pcb, ops: seq<SenderOp>, iss: nat, stream: seq<u8>)
    requires SenderInv(p, iss, stream) && AllEnabled(p, ops)
    ensures var q, all := RunAll(p, ops), stream + AllWritten(ops);
      q.sndNbb == iss + |all| && (forall x :: q.sndUna <= x < iss + |all| ==> Holders(q, x) == 1) &&
      (forall s :: s in q.unsent || s in q.unacked ==> SegOk(s, iss, all)) &&
      (q.sndBuf.Some? ==> SegOk(q.sndBuf.value, iss, all))
  {
    RunKeeps(p, ops, iss, stream, stream + AllWritten(ops));
  }
}
