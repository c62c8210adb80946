/** src/lib/bitmap.c: a bit map over a byte buffer, whose first bit stands for `offset`. */
module Bitmap {
  /** 1 << k */
  function Mask(k: nat): bv8
    requires k < 8
  {
    match k
    case 0 => 0x01 case 1 => 0x02 case 2 => 0x04 case 3 => 0x08
    case 4 => 0x10 case 5 => 0x20 case 6 => 0x40 case 7 => 0x80
  }

  predicate Bit(b: bv8, k: nat)
    requires k < 8
  {
    b & Mask(k) != 0
  }

  /** Bit `i` of the buffer is bit i % 8 of byte i / 8. */
  predicate Get(bytes: seq<bv8>, i: nat)
    requires i < 8 * |bytes|
  {
    Bit(bytes[i / 8], i % 8)
  }

  /** The buffer as a sequence of bits. */
  function Bits(bytes: seq<bv8>): (r: seq<bool>)
    ensures |r| == 8 * |bytes|
  {
    seq(8 * |bytes|, i requires 0 <= i < 8 * |bytes| => Get(bytes, i))
  }

  lemma SetBit(b: bv8, k: nat, j: nat)
    requires k < 8 && j < 8
    ensures Bit(b | Mask(k), j) == (j == k || Bit(b, j))
    ensures Bit(b & !Mask(k), j) == (j != k && Bit(b, j))
  {
  }

  function Changed(b: bv8, k: nat, value: bool): bv8
    requires k < 8
  {
    if value then b | Mask(k) else b & !Mask(k)
  }

  lemma ChangedBit(b: bv8, k: nat, value: bool, j: nat)
    requires k < 8 && j < 8
    ensures Bit(Changed(b, k, value), j) == if j == k then value else Bit(b, j)
  {
    SetBit(b, k, j);
  }

  lemma SameBit(i: nat, j: nat)
    ensures i == j <==> i / 8 == j / 8 && i % 8 == j % 8
  {
  }

  lemma ChangedGet(bytes: seq<bv8>, i: nat, value: bool, j: nat)
    requires i < 8 * |bytes| && j < 8 * |bytes|
    ensures Get(bytes[i / 8 := Changed(bytes[i / 8], i % 8, value)], j) == if j == i then value else Get(bytes, j)
  {
    SameBit(i, j);
    var p, q := i / 8, j / 8;
    if p == q {
      ChangedBit(bytes[p], i % 8, value, j % 8);
    }
  }

  /** Changing one bit of one byte changes that bit of the map and no other. */
  lemma ChangedBits(bytes: seq<bv8>, i: nat, value: bool)
    requires i < 8 * |bytes|
    ensures Bits(bytes[i / 8 := Changed(bytes[i / 8], i % 8, value)]) == Bits(bytes)[i := value]
  {
    var l, r := Bits(bytes[i / 8 := Changed(bytes[i / 8], i % 8, value)]), Bits(bytes)[i := value];
    forall j | 0 <= j < 8 * |bytes| ensures l[j] == r[j] {
      ChangedGet(bytes, i, value, j);
    }
  }

  // ---------------------------------------------------------------- runs of clear bits

  /** `count` clear bits begin at `start`. */
  predicate ClearRun(bits: seq<bool>, start: nat, count: nat) {
    start + count <= |bits| && forall j :: start <= j < start + count ==> !bits[j]
  }

  /** The least place where `count` clear bits begin, from `from` on; the length if there is none. */
  function FirstRun(bits: seq<bool>, from: nat, count: nat): (r: nat)
    requires from <= |bits|
    ensures from <= r <= |bits| && (r < |bits| ==> r + count <= |bits|)
    decreases |bits| - from
  {
    if from == |bits| || ClearRun(bits, from, count) then from else FirstRun(bits, from + 1, count)
  }

  lemma {:induction false} FirstRunIsFirst(bits: seq<bool>, from: nat, count: nat)
    requires from <= |bits|
    ensures var r := FirstRun(bits, from, count);
      (r < |bits| ==> ClearRun(bits, r, count)) && forall s :: from <= s < r ==> !ClearRun(bits, s, count)
    decreases |bits| - from
  {
    if from < |bits| && !ClearRun(bits, from, count) {
      FirstRunIsFirst(bits, from + 1, count);
    }
  }

  /** No run of `count` clear bits begins where fewer are left before a set one. */
  lemma {:induction false} Blocked(b: seq<bool>, from: nat, at: nat, count: nat)
    requires from <= at < |b| && b[at] && at - from < count
    ensures FirstRun(b, from, count) == FirstRun(b, at + 1, count)
    decreases at - from
  {
    assert !ClearRun(b, from, count);
    if from < at {
      Blocked(b, from + 1, at, count);
    }
  }

  lemma {:induction false} TooShort(b: seq<bool>, from: nat, count: nat)
    requires from <= |b| && |b| - from < count
    ensures FirstRun(b, from, count) == |b|
    decreases |b| - from
  {
    if from < |b| {
      TooShort(b, from + 1, count);
    }
  }

  /** The first `next` bits are looked at, the last `counter` of them are clear and may begin the run. */
  ghost predicate Scanned(b: seq<bool>, next: nat, counter: nat, count: nat) {
    counter <= next <= |b| && counter < count && (forall j :: next - counter <= j < next ==> !b[j]) &&
    FirstRun(b, 0, count) == FirstRun(b, next - counter, count)
  }

  lemma ScanStep(b: seq<bool>, next: nat, counter: nat, count: nat)
    requires Scanned(b, next, counter, count) && next < |b|
    ensures
      if b[next] then Scanned(b, next + 1, 0, count)
      else if counter + 1 < count then Scanned(b, next + 1, counter + 1, count)
      else FirstRun(b, 0, count) == next + 1 - count
  {
    if b[next] {
      Blocked(b, next - counter, next, count);
    } else if counter + 1 == count {
      assert ClearRun(b, next + 1 - count, count);
    }
  }

  /** A map that is given as longer than its block, with the bits `beyond` behind it: the scan for
      one bit stays in the block exactly if a bit of the block is clear, and then finds the
      same. */
  lemma LongMap(bits: seq<bool>, beyond: seq<bool>)
    ensures FirstRun(bits + beyond, 0, 1) < |bits| <==> false in bits
    ensures false in bits ==> FirstRun(bits + beyond, 0, 1) == FirstRun(bits, 0, 1)
  {
    hide FirstRun;
    var b := bits + beyond;
    var r, q := FirstRun(b, 0, 1), FirstRun(bits, 0, 1);
    FirstRunIsFirst(b, 0, 1);
    FirstRunIsFirst(bits, 0, 1);
    forall i: nat | i < |bits| ensures ClearRun(b, i, 1) == ClearRun(bits, i, 1) == !bits[i] {
      assert b[i] == bits[i];
    }
  }

  /** A full block and a clear bit in the byte behind it: that bit is handed out. */
  lemma FullMap(n: nat)
    ensures FirstRun(seq(n, _ => true) + [false], 0, 1) == n
  {
    var bits := seq(n, _ => true);
    LongMap(bits, [false]);
    FirstRunIsFirst(bits + [false], 0, 1);
    assert ClearRun(bits + [false], n, 1);
  }

  /** The map with `count` bits set from `start` on. */
  function Filled(bits: seq<bool>, start: nat, count: nat): (r: seq<bool>)
    requires start + count <= |bits|
    ensures |r| == |bits| && forall j :: 0 <= j < |bits| ==> r[j] == (bits[j] || start <= j < start + count)
  {
    bits[..start] + seq(count, i => true) + bits[start + count..]
  }

  class Map {
    const bits: array<bv8>
    const offset: nat

    constructor Make(bits: array<bv8>, offset: nat)
      ensures this.bits == bits && this.offset == offset
    {
      this.bits, this.offset := bits, offset;
    }

    ghost predicate Has(index: nat)
    {
      offset <= index < offset + 8 * bits.Length
    }

    method Test(index: nat) returns (r: bool)
      requires Has(index)
      ensures r == Get(bits[..], index - offset)
    {
      var idx := index - offset;
      r := Bit(bits[idx / 8], idx % 8);
    }

    method Set(index: nat, value: bool)
      requires Has(index)
      modifies bits
      ensures Bits(bits[..]) == old(Bits(bits[..]))[index - offset := value]
    {
      var idx := index - offset;
      ChangedBits(bits[..], idx, value);
      if value {
        bits[idx / 8] := bits[idx / 8] | Mask(idx % 8);
      } else {
        bits[idx / 8] := bits[idx / 8] & !Mask(idx % 8);
      }
      assert bits[..] == old(bits[..])[idx / 8 := Changed(old(bits[idx / 8]), idx % 8, value)];
    }

    /** The loop of bitmap_scan that looks for `count` clear bits in a row; `b` are the bits. */
    method Find(count: nat, ghost b: seq<bool>) returns (start: int)
      requires count > 0 && |b| == 8 * bits.Length
      requires forall i :: 0 <= i < |b| ==> b[i] == Get(bits[..], i)
      ensures start == if FirstRun(b, 0, count) < |b| then FirstRun(b, 0, count) else -1
    {
      hide Get, FirstRun, ClearRun;
      start := -1;
      var bitsLeft := 8 * bits.Length;
      var nextBit, counter := 0, 0;
      while bitsLeft > 0
        invariant bitsLeft + nextBit == |b| && 0 <= bitsLeft && Scanned(b, nextBit, counter, count)
        decreases bitsLeft
      {
        bitsLeft := bitsLeft - 1;
        var used := Test(offset + nextBit);
        ScanStep(b, nextBit, counter, count);
        if !used {
          counter := counter + 1;
        } else {
          counter := 0;
        }
        nextBit := nextBit + 1;
        if counter == count {
          start := nextBit - count;
          return;
        }
      }
      TooShort(b, nextBit - counter, count);
    }

    /** bitmap_scan: the least run of `count` clear bits is set and its index returned, -1 if
        there is none. */
    method Scan(count: nat) returns (r: int)
      requires count > 0
      modifies bits
      ensures var b := old(Bits(bits[..])); var s := FirstRun(b, 0, count);
        if s < |b| then r == s + offset && Bits(bits[..]) == Filled(b, s, count)
        else r == -1 && bits[..] == old(bits[..])
    {
      var start := Find(count, Bits(bits[..]));
      FirstRunIsFirst(Bits(bits[..]), 0, count);
      if start == -1 {
        return -1;
      }
      ghost var b := Bits(bits[..]);
      var i := 0;
      while i < count
        invariant 0 <= i <= count && start + count <= |b|
        invariant Bits(bits[..]) == Filled(b, start, i)
      {
        Set(offset + start + i, true);
        i := i + 1;
      }
      r := start + offset;
    }
  }
}
