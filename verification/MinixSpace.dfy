/** When minix_bmap and minix_write find the zones they need. */
module MinixSpace {
  import opened Words
  import opened Minix
  import opened MinixZones
  import opened MinixMap
  import opened MinixFile
  import Bitmap

  ghost function FreeZones(fs: Fs): set<nat>
    requires Dims(fs)
  {
    set z: nat | z < fs.zones && IsData(fs, z) && !Used(fs, z)
  }

  /** The slots without a zone, of those on the way to a slot and the slot itself. */
  function Lacking(fs: Fs, s: Slot): set<Slot>
    decreases Depth(s)
  {
    (if s.Top? then {} else Lacking(fs, Parent(s))) + if Val(fs, s) == 0 then {s} else {}
  }

  lemma {:induction false} LackingIs(fs: Fs, s: Slot, t: Slot)
    requires InTable(fs, s)
    ensures t in Lacking(fs, s) <==> Above(t, s) && Val(fs, t) == 0
    ensures t in Lacking(fs, s) ==> InTable(fs, t)
    decreases Depth(s)
  {
    hide Val;
    if !s.Top? {
      ParentInTable(fs, s);
      LackingIs(fs, Parent(s), t);
      assert Above(t, s) <==> t == s || Above(t, Parent(s));
    }
  }

  lemma AllocWhen(fs: Fs, s: Slot)
    requires Inv(fs) && CleanHere(fs, s) && InTable(fs, s) && Val(fs, s) == 0 && (!s.Top? ==> Val(fs, Parent(s)) != 0)
    ensures Alloc(fs, s).Some? <==> FreeZones(fs) != {}
    ensures Alloc(fs, s).Some? ==>
      var fs' := Alloc(fs, s).value; Dims(fs') && |FreeZones(fs')| == |FreeZones(fs)| - 1
  {
    hide PutSlot, Val;
    if z :| z in FreeZones(fs) {
      BallocFinds(fs, z);
    }
    if Balloc(fs).Some? {
      BallocIsFree(fs);
      var v := Balloc(fs).value;
      assert v in FreeZones(fs);
      var fs' := Fill(fs, s, v);
      FillUsed(fs, s, v, 0);
      AllocFrame(fs, s, v);
      forall z: nat ensures z in FreeZones(fs') <==> z in FreeZones(fs) && z != v {
        FillUsed(fs, s, v, z);
      }
      assert FreeZones(fs') == FreeZones(fs) - {v};
    }
  }

  /** Each slot on the way counts once. */
  lemma LackingSize(fs: Fs, s: Slot)
    requires InTable(fs, s)
    ensures |Lacking(fs, s)| == (if s.Top? then 0 else |Lacking(fs, Parent(s))|) + if Val(fs, s) == 0 then 1 else 0
  {
    hide Val;
    if !s.Top? {
      ParentInTable(fs, s);
      LackingIs(fs, Parent(s), s);
      assert !Above(s, Parent(s));
    }
  }

  /** minix_bmap with create succeeds exactly when there are as many free zones as are lacking, and
      takes as many. */
  lemma {:induction false} EnsureWhen(fs: Fs, s: Slot)
    requires Inv(fs) && Clean(fs, s) && InTable(fs, s)
    ensures Ensure(fs, s).Some? <==> |FreeZones(fs)| >= |Lacking(fs, s)|
    ensures Ensure(fs, s).Some? ==>
      Dims(Ensure(fs, s).value) && |FreeZones(Ensure(fs, s).value)| == |FreeZones(fs)| - |Lacking(fs, s)|
    decreases Depth(s)
  {
    hide InBounds, Unique, AllReached, AllKept, NewZones, FreeKept, NewIsStale, UsedKept, Val, FreeZones, Alloc, Lacking;
    NoneFree(fs);
    LackingSize(fs, s);
    if s.Top? {
      if Val(fs, s) == 0 { AllocWhen(fs, s); }
    } else {
      var p := Parent(s);
      ParentInTable(fs, s);
      EnsureWhen(fs, p);
      if Ensure(fs, p).Some? {
        EnsureKeeps(fs, p);
        var f := Ensure(fs, p).value;
        NoneFree(f);
        assert !Above(s, p);
        if Val(f, s) == 0 { AllocWhen(f, s); }
      }
    }
  }

  lemma NoneFree(fs: Fs)
    requires Dims(fs)
    ensures FreeZones(fs) == {} <==> |FreeZones(fs)| == 0
  {
  }

  /** The slots without a zone for the blocks of a range of a file. */
  function LackingFor(fs: Fs, k: nat, off: nat, n: nat): set<Slot>
    requires off + n <= MAX_SIZE
    decreases n
  {
    if n == 0 then {}
    else Lacking(fs, SlotOf(k, off / BLOCK_SIZE)) + LackingFor(fs, k, off + Chars(off, n), n - Chars(off, n))
  }

  lemma ValAbove(fs: Fs, s: Slot, t: Slot)
    requires Val(fs, s) != 0 && Above(t, s) && InTable(fs, s)
    ensures Val(fs, t) != 0
  {
  }

  /** Writing to a block fills the slots it lacks and no others. */
  lemma SlotLacks(fs: Fs, s: Slot, end: nat, start: nat, chunk: seq<u8>, t: Slot)
    requires Inv(fs) && Clean(fs, s) && InTable(fs, s) && !Indirect(s) && start + |chunk| <= BLOCK_SIZE
    requires Ensure(fs, s).Some? && InTable(fs, t)
    ensures Val(WriteSlot(fs, s, end, start, chunk).value, t) == 0 <==> Val(fs, t) == 0 && !Above(t, s)
  {
    hide InBounds, Unique, AllReached, UsedKept, FreeKept, PutBytes, Grow, Ensure, Val, Above;
    WriteSteps(fs, s, end);
    var f := Ensure(fs, s).value;
    assert SlotKept(fs, f, t);
    GrowByte(f, s.k, end, t, 0);
    PutBytesKeepsVal(Grow(f, s.k, end), s, start, chunk, t);
    if Above(t, s) { ValAbove(f, s, t); }
  }

  lemma ChunkLacks(fs: Fs, k: nat, off: nat, chunk: seq<u8>, t: Slot)
    requires Inv(fs) && IsOwner(fs, k) && off < MAX_SIZE && off % BLOCK_SIZE + |chunk| <= BLOCK_SIZE && InTable(fs, t)
    requires Clean(fs, SlotOf(k, off / BLOCK_SIZE)) && WriteChunk(fs, k, off, chunk).Some?
    ensures var f := WriteChunk(fs, k, off, chunk).value;
      InTable(f, t) && Lacking(f, t) == Lacking(fs, t) - Lacking(fs, SlotOf(k, off / BLOCK_SIZE))
  {
    hide Inv, Val, Clean, Ensure, Above;
    var s, f := SlotOf(k, off / BLOCK_SIZE), WriteChunk(fs, k, off, chunk).value;
    SlotInTable(fs, k, off / BLOCK_SIZE);
    SlotsDiffer(k, off / BLOCK_SIZE, k, off / BLOCK_SIZE);
    WriteChunkInodes(fs, k, off, chunk);
    forall u ensures u in Lacking(f, t) <==> u in Lacking(fs, t) && u !in Lacking(fs, s) {
      LackingIs(f, t, u);
      LackingIs(fs, t, u);
      LackingIs(fs, s, u);
      if Above(u, t) {
        AboveInTable(fs, t, u);
        SlotLacks(fs, s, off + |chunk|, off % BLOCK_SIZE, chunk, u);
      }
    }
  }

  lemma AboveInTable(fs: Fs, s: Slot, t: Slot)
    requires InTable(fs, s) && Above(t, s)
    ensures InTable(fs, t)
  {
  }

  lemma {:induction false} LackingForLess(fs: Fs, k: nat, at: nat, chunk: seq<u8>, off: nat, n: nat)
    requires Inv(fs) && IsOwner(fs, k) && at < MAX_SIZE && at % BLOCK_SIZE + |chunk| <= BLOCK_SIZE && off + n <= MAX_SIZE
    requires Clean(fs, SlotOf(k, at / BLOCK_SIZE)) && WriteChunk(fs, k, at, chunk).Some?
    ensures LackingFor(WriteChunk(fs, k, at, chunk).value, k, off, n) ==
      LackingFor(fs, k, off, n) - Lacking(fs, SlotOf(k, at / BLOCK_SIZE))
    decreases n
  {
    hide Inv, Clean, WriteChunk, Lacking, SlotOf, InTable;
    if n > 0 {
      SlotInTable(fs, k, off / BLOCK_SIZE);
      ChunkLacks(fs, k, at, chunk, SlotOf(k, off / BLOCK_SIZE));
      LackingForLess(fs, k, at, chunk, off + Chars(off, n), n - Chars(off, n));
    }
  }

  lemma ChunkWhen(fs: Fs, k: nat, off: nat, chunk: seq<u8>)
    requires Inv(fs) && IsOwner(fs, k) && off < MAX_SIZE && off % BLOCK_SIZE + |chunk| <= BLOCK_SIZE
    requires Clean(fs, SlotOf(k, off / BLOCK_SIZE))
    ensures WriteChunk(fs, k, off, chunk).Some? <==> |FreeZones(fs)| >= |Lacking(fs, SlotOf(k, off / BLOCK_SIZE))|
    ensures WriteChunk(fs, k, off, chunk).Some? ==>
      Dims(WriteChunk(fs, k, off, chunk).value) &&
      |FreeZones(WriteChunk(fs, k, off, chunk).value)| == |FreeZones(fs)| - |Lacking(fs, SlotOf(k, off / BLOCK_SIZE))|
  {
    hide InBounds, Unique, AllReached, Clean, Ensure, Lacking, SlotOf, InTable;
    SlotInTable(fs, k, off / BLOCK_SIZE);
    EnsureWhen(fs, SlotOf(k, off / BLOCK_SIZE));
    if WriteChunk(fs, k, off, chunk).Some? {
      WriteChunkInodes(fs, k, off, chunk);
      SameFree(fs, k, off, chunk);
    }
  }

  lemma SameFree(fs: Fs, k: nat, off: nat, chunk: seq<u8>)
    requires Dims(fs) && off < MAX_SIZE && off % BLOCK_SIZE + |chunk| <= BLOCK_SIZE && WriteChunk(fs, k, off, chunk).Some?
    requires Dims(WriteChunk(fs, k, off, chunk).value) && Dims(Ensure(fs, SlotOf(k, off / BLOCK_SIZE)).value)
    ensures FreeZones(WriteChunk(fs, k, off, chunk).value) == FreeZones(Ensure(fs, SlotOf(k, off / BLOCK_SIZE)).value)
  {
    hide Ensure, Val;
    var f, g := Ensure(fs, SlotOf(k, off / BLOCK_SIZE)).value, WriteChunk(fs, k, off, chunk).value;
    forall z: nat ensures z in FreeZones(g) <==> z in FreeZones(f) {
    }
  }

  /** minix_write succeeds exactly when there are as many free zones as its blocks lack before it,
      each counted once, and takes as many; so a write over blocks that are there always succeeds. */
  lemma {:induction false} WriteWhen(fs: Fs, k: nat, data: seq<u8>, off: nat)
    requires Inv(fs) && IsOwner(fs, k) && off + |data| <= MAX_SIZE && CleanWrite(fs, k, data, off)
    ensures Write(fs, k, data, off).Some? <==> |FreeZones(fs)| >= |LackingFor(fs, k, off, |data|)|
    ensures Write(fs, k, data, off).Some? ==>
      Dims(Write(fs, k, data, off).value) &&
      |FreeZones(Write(fs, k, data, off).value)| == |FreeZones(fs)| - |LackingFor(fs, k, off, |data|)|
    decreases |data|
  {
    hide InBounds, Unique, AllReached, Clean, WriteChunk, Lacking, SlotOf, FreeZones, UsedKept, FreeKept;
    if data != [] {
      var n := Chars(off, |data|);
      var a, b := Lacking(fs, SlotOf(k, off / BLOCK_SIZE)), LackingFor(fs, k, off + n, |data| - n);
      ChunkWhen(fs, k, off, data[..n]);
      assert a + b == a + (b - a);
      if WriteChunk(fs, k, off, data[..n]).Some? {
        WriteChunkInodes(fs, k, off, data[..n]);
        LackingForLess(fs, k, off, data[..n], off + n, |data| - n);
        WriteWhen(WriteChunk(fs, k, off, data[..n]).value, k, data[n..], off + n);
      }
    }
  }
}
