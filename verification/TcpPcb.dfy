/** The protocol control block, updated in place as tcp_output.c and tcp_input.c do. */
module TcpPcb {
  import opened Lists
  import opened Words
  import T = Tcp

  /** What is cut off at the front is no more than there is. */
  lemma TrimFits(seqno: u32, n: nat, rcvNxt: u32)
    requires n < 0x1_0000 && !T.SeqLeq(T.Add32(seqno, n), rcvNxt) && T.SeqLt(seqno, rcvNxt)
    ensures (rcvNxt - seqno) % 0x1_0000_0000 < n
  {
  }

  /** `all` is what tcp_recvmsg comes to if `rest` is what the rest of its loop does. */
  ghost predicate Resumed(all: (seq<T.Seg>, seq<u8>, seq<u8>), rest: (seq<T.Seg>, seq<u8>, seq<u8>), taken: seq<u8>, got: seq<u8>) {
    all.0 == rest.0 && all.1 == taken + rest.1 && all.2 == got + rest.2
  }

  lemma ReceivedStep(all: (seq<T.Seg>, seq<u8>, seq<u8>), l: seq<T.Seg>, left: nat, taken: seq<u8>, got: seq<u8>)
    requires l != [] && |l[0].data| <= left && Resumed(all, T.Received(l, left), taken, got)
    ensures Resumed(all, T.Received(l[1..], left - |l[0].data|), taken + l[0].data, got + l[0].data)
  {
    var next := T.Received(l[1..], left - |l[0].data|);
    Together(taken, l[0].data, next.1);
    Together(got, l[0].data, next.2);
  }

  /** Where the loop ends: the queue is empty, or its first segment is copied in part. */
  lemma ReceivedEnds(all: (seq<T.Seg>, seq<u8>, seq<u8>), l: seq<T.Seg>, left: nat, taken: seq<u8>, got: seq<u8>)
    requires Resumed(all, T.Received(l, left), taken, got) && (l == [] || left < |l[0].data|)
    ensures all == (l, taken, if l == [] then got else got + l[0].data[..left])
  {
    assert taken + [] == taken && got + [] == got;
  }

  class ControlBlock {
    var sndUna: u32
    var sndNxt: u32
    var sndMax: u32
    var sndNbb: u32
    var sndMss: nat
    var noDelay: bool
    var dupacks: nat
    var sndBuf: Option<T.Seg>
    var unsent: seq<T.Seg>
    var unacked: seq<T.Seg>
    var rcvNxt: u32
    var rcvWnd: int
    var recved: seq<T.Seg>

    ghost function State(): T.Pcb
      reads this
    {
      T.Pcb(sndUna, sndNxt, sndMax, sndNbb, sndMss, noDelay, dupacks, sndBuf, unsent, unacked, rcvNxt, rcvWnd, recved)
    }

    /** One turn of the loop of tcp_enqueue; `taken` bytes went into the buffer. */
    method EnqueueOnce(data: seq<u8>, size: nat) returns (taken: nat)
      requires sndBuf.Some? ==> |sndBuf.value.data| < sndMss
      requires 0 < sndMss
      modifies this
      ensures State() == T.EnqueueChunk(old(State()), data, size)
      ensures taken == T.Room(old(State()), |data|) && (data != [] ==> taken > 0)
      ensures sndMss == old(sndMss) && (sndBuf.Some? ==> |sndBuf.value.data| < sndMss)
    {
      if sndBuf.None? {
        sndBuf := Some(T.Seg(sndNbb, [], 1));
      }
      var pbuf := sndBuf.value;
      var seglen := sndMss - |pbuf.data|;
      taken := if |data| < seglen then |data| else seglen;
      pbuf := pbuf.(data := pbuf.data + data[..taken]);
      sndNbb := T.Add32(sndNbb, taken);
      if !noDelay && |pbuf.data| < sndMss && size > 0 {
        sndBuf := Some(pbuf);
      } else {
        unsent := ListInsertSort(unsent, pbuf, T.SegKey);
        sndBuf := None;
      }
    }

    /** tcp_enqueue. */
    method Enqueue(data: seq<u8>)
      requires sndBuf.Some? ==> |sndBuf.value.data| < sndMss
      modifies this
      ensures State() == T.Enqueue(old(State()), data)
      ensures sndBuf.Some? ==> |sndBuf.value.data| < sndMss
    {
      if sndMss < T.TCP_DEFAULT_MSS {
        sndMss := T.TCP_DEFAULT_MSS;
      }
      ghost var start := State();
      var taken := EnqueueOnce(data, |data|);
      var left := data[taken..];
      while |left| > 0
        invariant 0 < sndMss && (sndBuf.Some? ==> |sndBuf.value.data| < sndMss)
        invariant |left| < |data| || left == []
        invariant T.EnqueueLoop(start, data, |data|) ==
          if left == [] then State() else T.EnqueueLoop(State(), left, |data|)
        decreases |left|
      {
        taken := EnqueueOnce(left, |data|);
        left := left[taken..];
      }
    }

    /** The part of tcp_output that sends one segment. */
    method SendFirst() returns (q: T.Packet)
      requires unsent != []
      modifies this
      ensures |unsent| == |old(unsent)| - 1
      ensures State() == T.SendHead(old(State())) && q == T.PacketOf(old(State()), old(unsent[0]))
    {
      var pbuf := unsent[0];
      var end := T.End(pbuf);
      sndNxt := end;
      if T.SeqGt(end, sndMax) {
        sndMax := end;
      }
      unsent := unsent[1..];
      unacked := ListInsertSort(unacked, pbuf.(count := pbuf.count + 1), T.SegKey);
      q := T.Packet(pbuf.seqno, pbuf.data, rcvNxt);
    }

    /** tcp_output with the window `wnd`; the packets sent are returned in order. */
    method Output(wnd: nat) returns (out: seq<T.Packet>)
      modifies this
      ensures (State(), out) == T.Output(old(State()), wnd)
    {
      hide T.SendHead, T.PacketOf, InsertBy;
      out := [];
      if wnd < T.TCP_DEFAULT_MSS {
        return;
      }
      var limit := T.Add32(sndUna, wnd);
      ghost var start := State();
      assert [] + T.OutputLoop(start, limit).1 == T.OutputLoop(start, limit).1;
      while unsent != [] && !T.SeqGt(T.End(unsent[0]), limit)
        invariant T.OutputLoop(start, limit) == (T.OutputLoop(State(), limit).0, out + T.OutputLoop(State(), limit).1)
        decreases |unsent|
      {
        ghost var rest := T.OutputLoop(State(), limit).1;
        ghost var before := out;
        var q := SendFirst();
        out := out + [q];
        assert rest == [q] + T.OutputLoop(State(), limit).1;
        assert before + rest == out + T.OutputLoop(State(), limit).1;
      }
      assert out + [] == out;
    }

    /** tcp_rexmit. */
    method Rexmit(wnd: nat) returns (out: seq<T.Packet>)
      modifies this
      ensures (State(), out) == T.Rexmit(old(State()), wnd)
    {
      var i := 0;
      while i < |unacked|
        invariant 0 <= i <= |unacked|
        invariant T.Requeue(State(), i) == T.Requeue(old(State()), 0)
        decreases |unacked| - i
      {
        if unacked[i].count > 1 {
          i := i + 1;
        } else {
          var pbuf := unacked[i];
          unacked := unacked[..i] + unacked[i + 1..];
          unsent := ListInsertSort(unsent, pbuf, T.SegKey);
        }
      }
      out := Output(wnd);
    }

    /** The loop of tcp_update_ack over one list. */
    static method DropAcknowledged(list: seq<T.Seg>, ackno: u32) returns (r: seq<T.Seg>)
      ensures r == T.Unacknowledged(list, ackno)
    {
      var i := 0;
      r := [];
      while i < |list|
        invariant 0 <= i <= |list|
        invariant T.Unacknowledged(list, ackno) == r + T.Unacknowledged(list[i..], ackno)
      {
        assert list[i..][1..] == list[i + 1..];
        if T.SeqGt(T.End(list[i]), ackno) {
          r := r + [list[i]];
        }
        i := i + 1;
      }
    }

    /** tcp_update_ack and tcp_handle_duppacks. */
    method UpdateAck(ackno: u32, size: nat, wnd: nat) returns (out: seq<T.Packet>)
      modifies this
      ensures (State(), out) == T.UpdateAck(old(State()), ackno, size, wnd)
    {
      out := [];
      if T.SeqGeq(sndUna, ackno) {
        if size == 0 {
          dupacks := dupacks + 1;
          if dupacks >= T.TCP_REXMIT_THREASH {
            out := Rexmit(wnd);
          }
        } else {
          dupacks := 0;
        }
        return;
      }
      dupacks := 0;
      sndUna := ackno;
      unacked := DropAcknowledged(unacked, ackno);
      unsent := DropAcknowledged(unsent, ackno);
      if sndBuf.Some? && |sndBuf.value.data| > 0 && ackno == sndMax {
        unsent := ListInsertSort(unsent, sndBuf.value, T.SegKey);
        sndBuf := None;
      }
    }

    /** tcp_update_buf.  A segment that begins too early is cut at the front, but keeps its
        number as the key of the queue. */
    method UpdateBuf(seqno: u32, data: seq<u8>)
      requires |data| < 0x1_0000
      modifies this
      ensures State() == T.UpdateBuf(old(State()), seqno, data)
    {
      var end := T.Add32(seqno, |data|);
      if T.SeqLeq(end, rcvNxt) || T.SeqGt(seqno, rcvNxt) {
        return;
      }
      var kept := data;
      if T.SeqLt(seqno, rcvNxt) {
        TrimFits(seqno, |data|, rcvNxt);
        var offset := (rcvNxt - seqno) % 0x1_0000_0000;
        kept := data[offset..];
      }
      if |kept| == 0 {
        return;
      }
      rcvNxt := end;
      rcvWnd := rcvWnd - |kept|;
      recved := ListInsertSort(recved, T.Seg(seqno, kept, 2), T.SegKey);
    }

    /** tcp_input from tcp_validate on, in the established state. */
    method Input(q: T.Packet, wnd: nat) returns (out: seq<T.Packet>)
      requires |q.data| < 0x1_0000
      modifies this
      ensures (State(), out) == T.Input(old(State()), q, wnd)
    {
      out := [];
      var end := T.Add32(q.seqno, |q.data|);
      if T.SeqGt(end, T.Add32(rcvNxt, rcvWnd)) || T.SeqLt(end, rcvNxt) {
        return;
      }
      out := UpdateAck(q.ackno, |q.data|, wnd);
      if |q.data| > 0 {
        UpdateBuf(q.seqno, q.data);
      }
    }

    /** tcp_recvmsg with something in the queue, and room for n bytes. */
    method RecvMsg(n: nat) returns (got: seq<u8>)
      modifies `recved, `rcvWnd
      ensures State() == T.Receive(old(State()), n) && got == T.Received(old(recved), n).2
    {
      got := [];
      var left: nat := n;
      ghost var taken: seq<u8> := [];
      ghost var all := T.Received(recved, n);
      assert Resumed(all, T.Received(recved, left), taken, got);
      hide T.Received, Resumed;
      while recved != []
        invariant rcvWnd == old(rcvWnd) + |taken|
        invariant Resumed(all, T.Received(recved, left), taken, got)
        decreases |recved|
      {
        var pbuf := recved[0];
        if |pbuf.data| <= left {
          ReceivedStep(all, recved, left, taken, got);
          assert pbuf.data[..|pbuf.data|] == pbuf.data;
        } else {
          ReceivedEnds(all, recved, left, taken, got);
        }
        var len := if left < |pbuf.data| then left else |pbuf.data|;
        got := got + pbuf.data[..len];
        left := left - len;
        if len < |pbuf.data| {
          return;
        }
        taken := taken + pbuf.data;
        recved := recved[1..];
        rcvWnd := rcvWnd + |pbuf.data|;
      }
      ReceivedEnds(all, recved, left, taken, got);
    }
  }
}
