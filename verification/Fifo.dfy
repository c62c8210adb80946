/** src/lib/fifo.c: a ring buffer, of which one place always stays empty. */
module Fifo {
  import opened Words
  import opened Lists

  /** fifo_put: the oldest byte is dropped if there is no room. */
  function Put(contents: seq<u8>, cap: int, byte: u8): seq<u8> {
    if |contents| == cap && contents != [] then contents[1..] + [byte] else contents + [byte]
  }

  /** So the ring holds the last bytes put, as many as there is room for. */
  lemma PutIs(contents: seq<u8>, cap: nat, byte: u8)
    requires cap >= 1 && |contents| <= cap
    ensures var all := contents + [byte];
      Put(contents, cap, byte) == if |all| <= cap then all else all[|all| - cap..]
  {
    if |contents| == cap {
      assert (contents + [byte])[1..] == contents[1..] + [byte];
    }
  }

  /** The bytes between tail and head, going round the end of the buffer. */
  function Window(buf: seq<u8>, tail: nat, head: nat): seq<u8>
    requires tail < |buf| && head < |buf|
  {
    if head >= tail then buf[tail..head] else buf[tail..] + buf[..head]
  }

  /** fifo_next. */
  function NextPos(pos: nat, length: nat): (r: nat)
    requires length > 0
    ensures pos < length ==> r == if pos + 1 == length then 0 else pos + 1
  {
    NextIs(pos, length);
    (pos + 1) % length
  }

  lemma NextIs(pos: nat, length: nat)
    requires length > 0
    ensures pos < length ==> (pos + 1) % length == if pos + 1 == length then 0 else pos + 1
  {
  }

  lemma WindowFull(buf: seq<u8>, tail: nat, head: nat)
    requires tail < |buf| && head < |buf|
    ensures NextPos(head, |buf|) == tail <==> |Window(buf, tail, head)| == |buf| - 1
    ensures head == tail <==> Window(buf, tail, head) == []
  {
    assert |Window(buf, tail, head)| == if head >= tail then head - tail else head + |buf| - tail;
  }

  lemma WindowGet(buf: seq<u8>, tail: nat, head: nat)
    requires tail < |buf| && head < |buf| && head != tail
    ensures Window(buf, tail, head) == [buf[tail]] + Window(buf, NextPos(tail, |buf|), head)
  {
    hide NextPos;
    if head > tail {
      assert buf[tail..head] == [buf[tail]] + buf[tail + 1..head];
    } else if tail + 1 == |buf| {
      assert buf[tail..] == [buf[tail]] && buf[0..head] == buf[..head];
    } else {
      assert buf[tail..] == [buf[tail]] + buf[tail + 1..];
      Together([buf[tail]], buf[tail + 1..], buf[..head]);
    }
  }

  lemma WindowPut(buf: seq<u8>, tail: nat, head: nat, byte: u8)
    requires tail < |buf| && head < |buf| && NextPos(head, |buf|) != tail
    ensures Window(buf[head := byte], tail, NextPos(head, |buf|)) == Window(buf, tail, head) + [byte]
  {
    var b := buf[head := byte];
    if head >= tail {
      assert b[tail..head] == buf[tail..head];
      assert b[tail..head + 1] == b[tail..head] + [byte];
      assert head + 1 == |buf| ==> b[tail..] == b[tail..head + 1] && b[..0] == [];
    } else {
      assert b[tail..] == buf[tail..] && b[..head] == buf[..head];
      assert b[..head + 1] == b[..head] + [byte];
    }
  }

  class Ring {
    const buf: array<u8>
    var head: nat
    var tail: nat

    ghost predicate Valid()
      reads this
    {
      2 <= buf.Length && head < buf.Length && tail < buf.Length
    }

    /** The bytes that were put and not yet gotten, oldest first. */
    ghost function Contents(): seq<u8>
      requires Valid()
      reads this, buf
    {
      Window(buf[..], tail, head)
    }

    ghost function Capacity(): int { buf.Length - 1 }

    /** fifo_init. */
    constructor (size: nat)
      requires size >= 2
      ensures Valid() && Contents() == [] && Capacity() == size - 1 && fresh(buf)
    {
      buf := new u8[size](_ => 0);
      head, tail := 0, 0;
    }

    method Full() returns (r: bool)
      requires Valid()
      ensures r == (|Contents()| == Capacity())
    {
      WindowFull(buf[..], tail, head);
      r := NextPos(head, buf.Length) == tail;
    }

    method Empty() returns (r: bool)
      requires Valid()
      ensures r == (Contents() == [])
    {
      WindowFull(buf[..], tail, head);
      r := head == tail;
    }

    /** fifo_get. */
    method GetByte() returns (byte: u8)
      requires Valid() && Contents() != []
      modifies this
      ensures Valid() && byte == old(Contents())[0] && Contents() == old(Contents())[1..]
    {
      WindowFull(buf[..], tail, head);
      WindowGet(buf[..], tail, head);
      byte := buf[tail];
      tail := NextPos(tail, buf.Length);
    }

    /** fifo_put. */
    method PutByte(byte: u8)
      requires Valid()
      modifies this, buf
      ensures Valid() && Contents() == Put(old(Contents()), Capacity(), byte)
    {
      var full := Full();
      while full
        invariant Valid() && full == (|Contents()| == Capacity()) && buf[..] == old(buf[..])
        invariant Put(Contents(), Capacity(), byte) == Put(old(Contents()), Capacity(), byte)
        decreases |Contents()|
      {
        var dropped := GetByte();
        full := Full();
      }
      WindowFull(buf[..], tail, head);
      WindowPut(buf[..], tail, head, byte);
      ghost var was := buf[..];
      buf[head] := byte;
      assert buf[..] == was[head := byte];
      head := NextPos(head, buf.Length);
    }
  }
}
