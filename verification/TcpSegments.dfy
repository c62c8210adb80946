/** How tcp_enqueue cuts what it is given: full segments, and what is left over. */
module TcpSegments {
  import opened Words
  import opened Lists
  import opened Tcp
  import opened TcpSender

  /** The bytes in the buffer being filled. */
  function Pending(p: Pcb): nat {
    if p.sndBuf.Some? then |p.sndBuf.value.data| else 0
  }

  /** What is left of n bytes when whole segments are taken. */
  function Over(n: nat, mss: nat): (r: nat)
    requires mss > 0
    ensures r < mss && r <= n
  {
    if n < mss then n else Over(n - mss, mss)
  }

  /** After the loop the buffer holds what does not fill a segment, if Nagle's algorithm is on; else
      it is empty. */
  ghost predicate LeavesOver(p': Pcb, noDelay: bool, held: nat, mss: nat)
    requires mss > 0
  {
    p'.sndBuf.Some? == (!noDelay && Over(held, mss) > 0) && (p'.sndBuf.Some? ==> |p'.sndBuf.value.data| == Over(held, mss))
  }

  lemma {:induction false} LoopLeavesOver(p: Pcb, data: seq<u8>, size: nat)
    requires Pending(p) < p.sndMss && (size == 0 ==> data == []) && (size > 0 ==> data != [])
    ensures size > 0 ==> LeavesOver(EnqueueLoop(p, data, size), p.noDelay, Pending(p) + |data|, p.sndMss)
    ensures size == 0 ==> EnqueueLoop(p, data, size).sndBuf == None
    decreases |data|
  {
    var n := Room(p, |data|);
    var rest := data[n..];
    if rest != [] {
      LoopLeavesOver(EnqueueChunk(p, data, size), rest, size);
    }
  }

  /** The segment size is at least 536. */
  function SegmentSize(p: Pcb): nat {
    if p.sndMss < 536 then 536 else p.sndMss
  }

  /** tcp_enqueue.  Without Nagle's algorithm, or when it is given nothing, it leaves the buffer empty;
      else it leaves the bytes there that do not fill a segment. */
  lemma EnqueueLeavesOver(p: Pcb, data: seq<u8>)
    requires Pending(p) < SegmentSize(p)
    ensures data == [] ==> Enqueue(p, data).sndBuf == None
    ensures data != [] ==> LeavesOver(Enqueue(p, data), p.noDelay, Pending(p) + |data|, SegmentSize(p))
  {
    LoopLeavesOver(WithMss(p), data, |data|);
  }

  /** A new segment is full, or it is the last one of a call that leaves nothing in the buffer. */
  predicate FullOrLast(p: Pcb, p': Pcb, s: Seg, mss: nat) {
    s in p.unsent || |s.data| == mss || (p'.sndBuf == None && s.seqno + |s.data| == p'.sndNbb)
  }

  lemma ChunkCuts(p: Pcb, data: seq<u8>, size: nat, iss: nat, stream: seq<u8>)
    requires SenderInv(p, iss, stream) && iss + |stream| + |data| < 0x8000_0000
    ensures var p' := EnqueueChunk(p, data, size);
      p'.sndMss == p.sndMss && p'.unacked == p.unacked && (forall s :: s in p.unsent ==> s in p'.unsent) &&
      forall s :: s in p'.unsent ==>
        s in p.unsent || |s.data| == p.sndMss ||
        (Room(p, |data|) == |data| && p'.sndBuf == None && s.seqno + |s.data| == p'.sndNbb)
  {
    var n := Room(p, |data|);
    var b := Filling(p).(data := Filling(p).data + data[..n]);
    FilledOk(p, iss, stream, data[..n]);
    InsertKeeps(p.unsent, b);
    hide Numbers, Partition, Sorted, InsertSort, SegOk, ListOk, Add32;
  }

  lemma {:induction false} LoopCuts(p: Pcb, data: seq<u8>, size: nat, iss: nat, stream: seq<u8>)
    requires SenderInv(p, iss, stream) && iss + |stream| + |data| < 0x8000_0000
    ensures forall s :: s in EnqueueLoop(p, data, size).unsent ==> FullOrLast(p, EnqueueLoop(p, data, size), s, p.sndMss)
    ensures forall s :: s in p.unsent ==> s in EnqueueLoop(p, data, size).unsent
    ensures EnqueueLoop(p, data, size).unacked == p.unacked
    decreases |data|
  {
    var n := Room(p, |data|);
    var rest, p1 := data[n..], EnqueueChunk(p, data, size);
    EnqueueChunkKeeps(p, iss, stream, data, size);
    ChunkCuts(p, data, size, iss, stream);
    hide SenderInv, EnqueueChunk;
    if 0 < |rest| {
      LoopCuts(p1, rest, size, iss, stream + data[..n]);
    }
  }

  lemma EnqueueCuts(p: Pcb, data: seq<u8>, iss: nat, stream: seq<u8>)
    requires SenderInv(p, iss, stream) && iss + |stream| + |data| < 0x8000_0000
    ensures forall s :: s in Enqueue(p, data).unsent ==> FullOrLast(p, Enqueue(p, data), s, SegmentSize(p))
    ensures forall s :: s in p.unsent ==> s in Enqueue(p, data).unsent
    ensures Enqueue(p, data).unacked == p.unacked
  {
    LoopCuts(WithMss(p), data, |data|, iss, stream);
  }
}
