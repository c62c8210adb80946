/** A pipe between one reader and one writer (src/fs/pipe/pipe.c) over the ring buffer.  Each
    turn of the loops of pipe_read and pipe_write, up to where it may block, is one step. */
module Pipe {
  import opened Words
  import Fifo

  /** Where a side is in its loop: not in it; at its head; blocked, with the waiter field set;
      or woken, and about to take or put its byte without looking again. */
  datatype At = Outside | Loop | Blocked | Woken

  /** `left` is what the reader still wants, `rest` what the writer still has.  `written` and
      `read` are the bytes that went in and came out so far. */
  datatype Pipe = Pipe(
    fifo: seq<u8>, cap: nat, reader: At, left: nat, writer: At, rest: seq<u8>, written: seq<u8>, read: seq<u8>)

  datatype Event =
    | StartRead(n: nat)
    | StartWrite(data: seq<u8>)
    | ReadTurn
    | WriteTurn

  predicate Enabled(p: Pipe, e: Event) {
    match e
    case StartRead(_) => p.reader == Outside
    case StartWrite(_) => p.writer == Outside
    case ReadTurn => p.reader == Woken || p.reader == Loop
    case WriteTurn => p.writer == Woken || p.writer == Loop
  }

  /** fifo_get, which asserts that there is a byte; then the writer is woken. */
  function Take(p: Pipe): Pipe {
    if p.fifo == [] then p
    else p.(fifo := p.fifo[1..], read := p.read + [p.fifo[0]], left := if p.left > 0 then p.left - 1 else 0, reader := Loop,
            writer := if p.writer == Blocked then Woken else p.writer)
  }

  /** fifo_put; then the reader is woken. */
  function Give(p: Pipe): Pipe {
    if p.rest == [] then p
    else p.(fifo := Fifo.Put(p.fifo, p.cap, p.rest[0]), written := p.written + [p.rest[0]], rest := p.rest[1..], writer := Loop,
            reader := if p.reader == Blocked then Woken else p.reader)
  }

  function Next(p: Pipe, e: Event): Pipe
    requires Enabled(p, e)
  {
    match e
    case StartRead(n) => p.(reader := Loop, left := n)
    case StartWrite(data) => p.(writer := Loop, rest := data)
    case ReadTurn =>
      if p.reader == Woken then Take(p)
      else if p.left == 0 then p.(reader := Outside)
      else if p.fifo == [] then p.(reader := Blocked)
      else Take(p)
    case WriteTurn =>
      if p.writer == Woken then Give(p)
      else if p.rest == [] then p.(writer := Outside)
      else if |p.fifo| == p.cap then p.(writer := Blocked)
      else Give(p)
  }

  /** A put that has to drop a byte. */
  predicate Drops(p: Pipe, e: Event)
    requires Enabled(p, e)
  {
    e == WriteTurn && Next(p, e) == Give(p) && p.rest != [] && |p.fifo| == p.cap
  }

  predicate Inv(p: Pipe) {
    p.cap >= 1 && |p.fifo| <= p.cap && p.written == p.read + p.fifo &&
    (p.reader == Blocked ==> p.fifo == []) && (p.reader == Woken ==> p.fifo != []) &&
    (p.writer == Blocked ==> |p.fifo| == p.cap) && (p.writer == Woken ==> |p.fifo| < p.cap) &&
    (p.reader == Blocked || p.reader == Woken ==> p.left > 0) &&
    (p.writer == Blocked || p.writer == Woken ==> p.rest != []) &&
    (p.reader == Outside ==> p.left == 0) && (p.writer == Outside ==> p.rest == [])
  }

  /** A turn keeps it, never drops a byte, and never takes one that is not there. */
  lemma NextKeeps(p: Pipe, e: Event)
    requires Inv(p) && Enabled(p, e)
    ensures Inv(Next(p, e)) && !Drops(p, e)
    ensures e == ReadTurn && p.reader == Woken ==> p.fifo != []
  {
    if e == ReadTurn && p.fifo != [] {
      assert p.fifo == [p.fifo[0]] + p.fifo[1..];
      assert p.read + p.fifo == p.read + [p.fifo[0]] + p.fifo[1..];
    }
    if e == WriteTurn && p.rest != [] && |p.fifo| < p.cap {
      assert p.read + p.fifo + [p.rest[0]] == p.read + (p.fifo + [p.rest[0]]);
    }
  }

  ghost predicate Run(states: seq<Pipe>, events: seq<Event>) {
    |states| == |events| + 1 &&
    forall i :: 0 <= i < |events| ==> Enabled(states[i], events[i]) && states[i + 1] == Next(states[i], events[i])
  }

  /** What pipe_open leaves. */
  function Opened(cap: nat): Pipe {
    Pipe([], cap, Outside, 0, Outside, [], [], [])
  }

  lemma {:induction false} RunKeeps(states: seq<Pipe>, events: seq<Event>, cap: nat, n: nat)
    requires Run(states, events) && states[0] == Opened(cap) && cap >= 1 && n <= |events|
    ensures Inv(states[n]) && (n < |events| ==> !Drops(states[n], events[n]))
    decreases n
  {
    if n > 0 {
      RunKeeps(states, events, cap, n - 1);
      NextKeeps(states[n - 1], events[n - 1]);
    }
    if n < |events| {
      NextKeeps(states[n], events[n]);
    }
  }

  /** In every run: what was read is a prefix of what was written, the rest of it is in the
      buffer, and reader and writer are never both blocked. */
  lemma PrefixAndProgress(states: seq<Pipe>, events: seq<Event>, cap: nat, n: nat)
    requires Run(states, events) && states[0] == Opened(cap) && cap >= 1 && n <= |events|
    ensures states[n].read <= states[n].written && |states[n].written| - |states[n].read| <= states[n].cap
    ensures !(states[n].reader == Blocked && states[n].writer == Blocked)
    ensures states[n].reader == Blocked ==> states[n].read == states[n].written
  {
    RunKeeps(states, events, cap, n);
  }

  /** A blocked side always has a partner that can unblock it, unless that is not there. */
  lemma PartnerCanMove(p: Pipe)
    requires Inv(p)
    ensures p.reader == Blocked && p.writer != Outside ==> Enabled(p, WriteTurn)
    ensures p.writer == Blocked && p.reader != Outside ==> Enabled(p, ReadTurn)
  {
  }

  // ---------------------------------------------------------------- it moves

  /** A turn of the reader takes the oldest byte if it wants one and there is one; the writer, if it
      was blocked, can go on then. */
  lemma ReadTurnIs(p: Pipe)
    requires Inv(p) && Enabled(p, ReadTurn)
    ensures var q := Next(p, ReadTurn);
      if p.left > 0 && p.fifo != [] then
        q.read == p.read + [p.fifo[0]] && q.fifo == p.fifo[1..] && q.left == p.left - 1 && q.reader == Loop &&
        q.writer == (if p.writer == Blocked then Woken else p.writer) && q.rest == p.rest && q.written == p.written
      else q == p.(reader := if p.left == 0 then Outside else Blocked)
  {
  }

  lemma WriteTurnIs(p: Pipe)
    requires Inv(p) && Enabled(p, WriteTurn)
    ensures var q := Next(p, WriteTurn);
      if p.rest != [] && |p.fifo| < p.cap then
        q.written == p.written + [p.rest[0]] && q.fifo == p.fifo + [p.rest[0]] && q.rest == p.rest[1..] && q.writer == Loop &&
        q.reader == (if p.reader == Blocked then Woken else p.reader) && q.left == p.left && q.read == p.read
      else q == p.(writer := if p.rest == [] then Outside else Blocked)
  {
  }

  /** The bytes given to a call of pipe_write, and how many a call of pipe_read wants. */
  function GivenBy(e: Event): seq<u8> {
    if e.StartWrite? then e.data else []
  }

  function WantedBy(e: Event): nat {
    if e.StartRead? then e.n else 0
  }

  function Given(events: seq<Event>, n: nat): seq<u8>
    requires n <= |events|
  {
    if n == 0 then [] else Given(events, n - 1) + GivenBy(events[n - 1])
  }

  function Wanted(events: seq<Event>, n: nat): nat
    requires n <= |events|
  {
    if n == 0 then 0 else Wanted(events, n - 1) + WantedBy(events[n - 1])
  }

  lemma NextServes(p: Pipe, e: Event)
    requires Inv(p) && Enabled(p, e)
    ensures Next(p, e).written + Next(p, e).rest == p.written + p.rest + GivenBy(e)
    ensures |Next(p, e).read| + Next(p, e).left == |p.read| + p.left + WantedBy(e)
  {
    match e
    case StartRead(_) =>
    case StartWrite(_) => assert p.rest == [];
    case ReadTurn => ReadTurnIs(p);
    case WriteTurn =>
      WriteTurnIs(p);
      assert p.rest != [] ==> p.written + p.rest == p.written + [p.rest[0]] + p.rest[1..];
  }

  /** In every run: what is not yet written is what pipe_write still has, and what is not yet read is
      what pipe_read still wants.  A call of pipe_write returns when all of it is written, and a call
      of pipe_read when it has read all it wants. */
  lemma {:induction false} CallsAreServed(states: seq<Pipe>, events: seq<Event>, cap: nat, n: nat)
    requires Run(states, events) && states[0] == Opened(cap) && cap >= 1 && n <= |events|
    ensures states[n].written + states[n].rest == Given(events, n) && |states[n].read| + states[n].left == Wanted(events, n)
    ensures states[n].writer == Outside ==> states[n].written == Given(events, n)
    ensures states[n].reader == Outside ==> |states[n].read| == Wanted(events, n)
    decreases n
  {
    hide Next, Enabled, GivenBy, WantedBy;
    RunKeeps(states, events, cap, n);
    if n > 0 {
      CallsAreServed(states, events, cap, n - 1);
      RunKeeps(states, events, cap, n - 1);
      NextServes(states[n - 1], events[n - 1]);
    }
  }

  /** When neither side can go on, the reader has all that was given, or all it wants. */
  lemma AtRest(states: seq<Pipe>, events: seq<Event>, cap: nat, n: nat)
    requires Run(states, events) && states[0] == Opened(cap) && cap >= 1 && n <= |events|
    requires !Enabled(states[n], ReadTurn) && !Enabled(states[n], WriteTurn)
    ensures var given, wanted := Given(events, n), Wanted(events, n);
      states[n].read == given[..if wanted < |given| then wanted else |given|]
  {
    RunKeeps(states, events, cap, n);
    CallsAreServed(states, events, cap, n);
  }

  /** How many turns are left at most. */
  function TurnsLeft(p: Pipe): nat {
    3 * p.left + 3 * |p.rest| + (if p.reader == Loop then 1 else 0) + if p.writer == Loop then 1 else 0
  }

  lemma TurnCounts(p: Pipe, e: Event)
    requires Inv(p) && Enabled(p, e) && (e == ReadTurn || e == WriteTurn)
    ensures TurnsLeft(Next(p, e)) < TurnsLeft(p)
  {
    if e == ReadTurn { ReadTurnIs(p); } else { WriteTurnIs(p); }
  }

  /** And they come to that, under any schedule: without new calls there is an end to the turns. */
  lemma {:induction false} TurnsEnd(states: seq<Pipe>, events: seq<Event>, n: nat)
    requires Run(states, events) && Inv(states[0]) && n <= |events|
    requires forall i :: 0 <= i < n ==> events[i] == ReadTurn || events[i] == WriteTurn
    ensures Inv(states[n]) && n + TurnsLeft(states[n]) <= TurnsLeft(states[0])
  {
    hide Inv, Next, Enabled, TurnsLeft;
    if n > 0 {
      TurnsEnd(states, events, n - 1);
      NextKeeps(states[n - 1], events[n - 1]);
      TurnCounts(states[n - 1], events[n - 1]);
    }
  }

  // ---------------------------------------------------------------- the pipe, updated in place

  lemma Split(s: seq<u8>, before: seq<u8>)
    requires s != []
    ensures before + s == before + [s[0]] + s[1..]
  {
  }

  /** The inode of a pipe: the ring buffer and the two waiter fields. */
  class PipeInode {
    const fifo: Fifo.Ring
    var rxwaiter: bool
    var txwaiter: bool

    constructor (ring: Fifo.Ring)
      ensures fifo == ring && !rxwaiter && !txwaiter
    {
      fifo := ring;
      rxwaiter, txwaiter := false, false;
    }

    ghost predicate Separate() {
      var a: object, b: object, c: object := this, fifo, fifo.buf;
      a != b && b != c && a != c
    }

    /** One turn of pipe_read that finds a byte; whether it wakes the writer. */
    method ReadByte() returns (byte: u8, wakes: bool)
      requires Separate() && fifo.Valid() && fifo.Contents() != []
      modifies this, fifo
      ensures fifo.Valid() && byte == old(fifo.Contents())[0] && fifo.Contents() == old(fifo.Contents())[1..]
      ensures wakes == old(txwaiter) && !txwaiter && rxwaiter == old(rxwaiter)
    {
      byte := fifo.GetByte();
      wakes := txwaiter;
      txwaiter := false;
    }

    /** One turn of pipe_write that finds room; whether it wakes the reader. */
    method WriteByte(byte: u8) returns (wakes: bool)
      requires Separate() && fifo.Valid() && |fifo.Contents()| < fifo.Capacity()
      modifies this, fifo, fifo.buf
      ensures fifo.Valid() && fifo.Contents() == old(fifo.Contents()) + [byte]
      ensures wakes == old(rxwaiter) && !rxwaiter && txwaiter == old(txwaiter)
    {
      fifo.PutByte(byte);
      wakes := rxwaiter;
      rxwaiter := false;
    }

    /** pipe_read from a turn on where it need not block first, until it is done or has to
        block: it takes what is there, in order, and leaves the rest. */
    method Drain(count: nat) returns (data: seq<u8>, blocks: bool)
      requires Separate() && fifo.Valid() && !rxwaiter
      modifies this, fifo
      ensures fifo.Valid() && old(fifo.Contents()) == data + fifo.Contents() && |data| <= count
      ensures blocks <==> |data| < count
      ensures blocks ==> fifo.Contents() == []
      ensures rxwaiter == blocks && (data != [] ==> !txwaiter)
    {
      hide Fifo.Window;
      data, blocks := [], false;
      while |data| < count
        invariant |data| <= count && !blocks && fifo.Valid() && old(fifo.Contents()) == data + fifo.Contents()
        invariant !rxwaiter && (data != [] ==> !txwaiter)
        decreases count - |data|
      {
        var empty := fifo.Empty();
        if empty {
          rxwaiter := true;
          return data, true;
        }
        ghost var was := fifo.Contents();
        var byte, wakes := ReadByte();
        Split(was, data);
        data := data + [byte];
      }
    }

    /** pipe_write likewise: it puts as much as fits. */
    method Fill(data: seq<u8>) returns (n: nat, blocks: bool)
      requires Separate() && fifo.Valid() && !txwaiter && |fifo.Contents()| <= fifo.Capacity()
      modifies this, fifo, fifo.buf
      ensures fifo.Valid() && n <= |data| && fifo.Contents() == old(fifo.Contents()) + data[..n]
      ensures |fifo.Contents()| <= fifo.Capacity() && (blocks <==> n < |data|)
      ensures blocks ==> |fifo.Contents()| == fifo.Capacity()
      ensures txwaiter == blocks && (n > 0 ==> !rxwaiter)
    {
      n, blocks := 0, false;
      while n < |data|
        invariant n <= |data| && !blocks && fifo.Valid() && fifo.Contents() == old(fifo.Contents()) + data[..n]
        invariant |fifo.Contents()| <= fifo.Capacity() && !txwaiter && (n > 0 ==> !rxwaiter)
        decreases |data| - n
      {
        var full := fifo.Full();
        if full {
          txwaiter := true;
          return n, true;
        }
        var wakes := WriteByte(data[n]);
        assert data[..n + 1] == data[..n] + [data[n]];
        n := n + 1;
      }
    }
  }
}
