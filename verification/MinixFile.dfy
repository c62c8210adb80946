/** minix_read and minix_write: files as byte arrays on top of the block map. */
module MinixFile {
  import opened Words
  import opened Minix
  import opened MinixZones
  import opened MinixMap

  const MAX_SIZE := TOTAL_BLOCK * BLOCK_SIZE

  // ---------------------------------------------------------------- the bytes of a file

  predicate Mapped(fs: Fs, k: nat, o: nat)
    requires o < MAX_SIZE
  {
    Val(fs, SlotOf(k, o / BLOCK_SIZE)) != 0
  }

  /** Byte i of the zone in slot t. */
  function ByteAt(fs: Fs, t: Slot, i: nat): u8
    requires i < BLOCK_SIZE
  {
    if Val(fs, t) < |fs.blocks| then fs.blocks[Val(fs, t)][i] else 0
  }

  /** The byte at offset o of inode k. */
  function Byte(fs: Fs, k: nat, o: nat): u8
    requires o < MAX_SIZE
  {
    ByteAt(fs, SlotOf(k, o / BLOCK_SIZE), o % BLOCK_SIZE)
  }

  predicate IsOwner(fs: Fs, k: nat) {
    k < |fs.inodes| && Owner(fs.inodes[k])
  }

  // ---------------------------------------------------------------- writing

  function Splice(s: Block, start: nat, chunk: seq<u8>): Block
    requires start + |chunk| <= BLOCK_SIZE
  {
    s[..start] + chunk + s[start + |chunk|..]
  }

  function Min(a: nat, b: nat): nat {
    if a < b then a else b
  }

  /** What one turn of the loops of minix_read and minix_write handles. */
  function Chars(off: nat, left: nat): nat {
    Min(BLOCK_SIZE - off % BLOCK_SIZE, left)
  }

  function Grow(fs: Fs, k: nat, end: nat): Fs {
    if k < |fs.inodes| && end > fs.inodes[k].size then fs.(inodes := fs.inodes[k := fs.inodes[k].(size := end)]) else fs
  }

  function PutBytes(fs: Fs, z: nat, start: nat, chunk: seq<u8>): Fs
    requires start + |chunk| <= BLOCK_SIZE
  {
    if z < |fs.blocks| then fs.(blocks := fs.blocks[z := Splice(fs.blocks[z], start, chunk)]) else fs
  }

  /** Bytes written to the block of a slot, which is created if need be, and the file grown to
      `end`; None if the disk is full. */
  function WriteSlot(fs: Fs, s: Slot, end: nat, start: nat, chunk: seq<u8>): Option<Fs>
    requires start + |chunk| <= BLOCK_SIZE
  {
    var f := Ensure(fs, s);
    if f.None? then None else Some(PutBytes(Grow(f.value, s.k, end), Val(f.value, s), start, chunk))
  }

  /** One turn of the loop of minix_write. */
  function WriteChunk(fs: Fs, k: nat, off: nat, chunk: seq<u8>): Option<Fs>
    requires off < MAX_SIZE && off % BLOCK_SIZE + |chunk| <= BLOCK_SIZE
  {
    WriteSlot(fs, SlotOf(k, off / BLOCK_SIZE), off + |chunk|, off % BLOCK_SIZE, chunk)
  }

  function Write(fs: Fs, k: nat, data: seq<u8>, off: nat): Option<Fs>
    requires off + |data| <= MAX_SIZE
    decreases |data|
  {
    if data == [] then Some(fs)
    else
      var n := Chars(off, |data|);
      var f := WriteChunk(fs, k, off, data[..n]);
      if f.None? then None else Write(f.value, k, data[n..], off + n)
  }

  // ---------------------------------------------------------------- one zone rewritten

  /** Rewriting the zone of a file block moves no zone number of any inode. */
  lemma {:induction false} PutBytesKeepsVal(fs: Fs, s: Slot, start: nat, chunk: seq<u8>, t: Slot)
    requires Inv(fs) && InTable(fs, s) && !Indirect(s) && Val(fs, s) != 0 && InTable(fs, t) && start + |chunk| <= BLOCK_SIZE
    ensures Val(PutBytes(fs, Val(fs, s), start, chunk), t) == Val(fs, t)
    decreases Depth(t)
  {
    if !t.Top? {
      var p := Parent(t);
      ParentInTable(fs, t);
      PutBytesKeepsVal(fs, s, start, chunk, p);
      assert Same(fs, p, s);
    }
  }

  /** Ownership depends only on the slots and the zone map. */
  lemma SameSlots(fs: Fs, fs': Fs)
    requires Inv(fs) && Dims(fs') && fs'.first == fs.first && fs'.zones == fs.zones && fs'.zmap == fs.zmap
    requires forall t :: InTable(fs', t) == InTable(fs, t) && (InTable(fs, t) ==> Val(fs', t) == Val(fs, t))
    ensures Inv(fs')
  {
    forall t, u ensures Same(fs', t, u) {
      assert Same(fs, t, u);
    }
    forall z: nat | IsData(fs', z) && Used(fs', z) ensures Reached(fs', z) {
      assert Used(fs, z) && Reached(fs, z);
      var t :| InTable(fs, t) && Val(fs, t) == z;
      assert InTable(fs', t);
    }
  }

  lemma PutBytesKeeps(fs: Fs, s: Slot, start: nat, chunk: seq<u8>)
    requires Inv(fs) && InTable(fs, s) && !Indirect(s) && Val(fs, s) != 0 && start + |chunk| <= BLOCK_SIZE
    ensures var fs' := PutBytes(fs, Val(fs, s), start, chunk); Inv(fs') && UsedKept(fs, fs') && FreeKept(fs, fs')
  {
    var fs' := PutBytes(fs, Val(fs, s), start, chunk);
    forall t | InTable(fs, t) ensures Val(fs', t) == Val(fs, t) {
      PutBytesKeepsVal(fs, s, start, chunk, t);
    }
    SameSlots(fs, fs');
    assert Used(fs, Val(fs, s));
  }

  lemma GrowKeeps(fs: Fs, k: nat, end: nat)
    requires Inv(fs)
    ensures var fs' := Grow(fs, k, end);
      Inv(fs') && UsedKept(fs, fs') && FreeKept(fs, fs') && forall t :: InTable(fs', t) == InTable(fs, t) && Val(fs', t) == Val(fs, t)
  {
    var fs' := Grow(fs, k, end);
    forall t ensures InTable(fs', t) == InTable(fs, t) && Val(fs', t) == Val(fs, t) {
    }
    SameSlots(fs, fs');
  }

  // ---------------------------------------------------------------- what a write does

  /** The zone of the byte at offset o. */
  function ZoneAt(fs: Fs, k: nat, o: nat): u16
    requires o < MAX_SIZE
  {
    Val(fs, SlotOf(k, o / BLOCK_SIZE))
  }

  /** The byte at offset o of a block that is new reads as what its zone held before. */
  ghost predicate StaleByte(fs: Fs, fs': Fs, k: nat, o: nat)
    requires o < MAX_SIZE && Dims(fs)
  {
    var z := ZoneAt(fs', k, o);
    IsData(fs, z) && !Used(fs, z) && Byte(fs', k, o) == fs.blocks[z][o % BLOCK_SIZE]
  }

  /** One byte of one file, before and after `data` was written at `off` of file k: a byte
      written is there; any other byte that existed is unchanged; one that did not exist before
      reads as what was in its zone if it exists now. */
  ghost predicate ByteOk(fs: Fs, fs': Fs, k: nat, data: seq<u8>, off: nat, k': nat, o: nat)
    requires Dims(fs)
  {
    IsOwner(fs, k') && o < MAX_SIZE ==>
      (Mapped(fs, k', o) ==> Mapped(fs', k', o) && ZoneAt(fs', k', o) == ZoneAt(fs, k', o)) &&
      if k' == k && off <= o < off + |data| then Mapped(fs', k', o) && Byte(fs', k', o) == data[o - off]
      else if Mapped(fs, k', o) then Byte(fs', k', o) == Byte(fs, k', o)
      else Mapped(fs', k', o) ==> k' == k && Touched(off, |data|, o) && StaleByte(fs, fs', k', o)
  }

  /** The block of o is one of those written to. */
  predicate Touched(off: nat, n: nat, o: nat) {
    off / BLOCK_SIZE <= o / BLOCK_SIZE && n > 0 && o / BLOCK_SIZE <= (off + n - 1) / BLOCK_SIZE
  }

  lemma TouchedMore(off: nat, n: nat, m: nat, o: nat)
    ensures Touched(off, n, o) || Touched(off + n, m, o) ==> Touched(off, n + m, o)
  {
  }

  /** The inodes after the write: only file k grew. */
  ghost predicate InodesOk(fs: Fs, fs': Fs, k: nat, size: nat) {
    fs'.first == fs.first && fs'.zones == fs.zones && |fs'.inodes| == |fs.inodes| &&
    forall j :: 0 <= j < |fs.inodes| ==>
      fs'.inodes[j] == if j == k then fs.inodes[j].(zone := fs'.inodes[j].zone, size := size) else fs.inodes[j]
  }

  ghost predicate Wrote(fs: Fs, fs': Fs, k: nat, data: seq<u8>, off: nat) {
    IsOwner(fs, k) && Inv(fs) && Inv(fs') && UsedKept(fs, fs') && FreeKept(fs, fs') &&
    (forall k': nat, o: nat :: ByteOk(fs, fs', k, data, off, k', o)) &&
    InodesOk(fs, fs', k, if data != [] && off + |data| > fs.inodes[k].size then off + |data| else fs.inodes[k].size)
  }

  lemma EnsureByte(fs: Fs, f: Fs, s: Slot, t: Slot, i: nat)
    requires Ensured(fs, f, s) && InTable(fs, s) && !Indirect(s) && InTable(fs, t) && !Indirect(t) && i < BLOCK_SIZE
    ensures if Val(fs, t) != 0 then Val(f, t) != 0 && ByteAt(f, t, i) == ByteAt(fs, t, i)
            else Val(f, t) != 0 ==> t == s && IsData(fs, Val(f, t)) && !Used(fs, Val(f, t)) && ByteAt(f, t, i) == fs.blocks[Val(f, t)][i]
    ensures InTable(f, t) && (Val(fs, t) != 0 ==> Val(f, t) == Val(fs, t))
  {
    hide Unique, AllReached, NewZones, UsedKept, FreeKept;
    assert SlotKept(fs, f, t) && DataKept(fs, f, t);
    assert InTable(f, t);
  }

  lemma PutByte(fs: Fs, s: Slot, start: nat, chunk: seq<u8>, t: Slot, i: nat)
    requires Inv(fs) && InTable(fs, s) && !Indirect(s) && Val(fs, s) != 0 && start + |chunk| <= BLOCK_SIZE
    requires InTable(fs, t) && i < BLOCK_SIZE
    ensures var fs' := PutBytes(fs, Val(fs, s), start, chunk);
      Val(fs', t) == Val(fs, t) &&
      if t == s && start <= i < start + |chunk| then ByteAt(fs', t, i) == chunk[i - start]
      else ByteAt(fs', t, i) == ByteAt(fs, t, i) || Val(fs, t) == 0
  {
    PutBytesKeepsVal(fs, s, start, chunk, t);
    assert Same(fs, s, t);
  }

  lemma SameBlock(off: nat, n: nat, o: nat)
    requires off % BLOCK_SIZE + n <= BLOCK_SIZE
    ensures o / BLOCK_SIZE == off / BLOCK_SIZE && off % BLOCK_SIZE <= o % BLOCK_SIZE < off % BLOCK_SIZE + n <==> off <= o < off + n
  {
  }

  /** The states a turn of the loop goes through: the block created, the size, the bytes. */
  lemma WriteSteps(fs: Fs, s: Slot, end: nat)
    requires Inv(fs) && Clean(fs, s) && InTable(fs, s) && Ensure(fs, s).Some?
    ensures var f := Ensure(fs, s).value; var g := Grow(f, s.k, end);
      Ensured(fs, f, s) && Inv(g) && UsedKept(fs, g) && FreeKept(fs, g) && InTable(g, s) && Val(g, s) == Val(f, s) != 0
  {
    EnsureKeeps(fs, s);
    GrowKeeps(Ensure(fs, s).value, s.k, end);
    FreeThen(fs, Ensure(fs, s).value, Grow(Ensure(fs, s).value, s.k, end));
  }

  lemma GrowByte(fs: Fs, k: nat, end: nat, t: Slot, i: nat)
    requires i < BLOCK_SIZE
    ensures var g := Grow(fs, k, end); InTable(g, t) == InTable(fs, t) && Val(g, t) == Val(fs, t) && ByteAt(g, t, i) == ByteAt(fs, t, i)
  {
  }

  lemma WriteSlotByte(fs: Fs, s: Slot, end: nat, start: nat, chunk: seq<u8>, t: Slot, i: nat)
    requires Inv(fs) && Clean(fs, s) && InTable(fs, s) && !Indirect(s) && start + |chunk| <= BLOCK_SIZE
    requires Ensure(fs, s).Some? && InTable(fs, t) && !Indirect(t) && i < BLOCK_SIZE
    ensures var fs' := WriteSlot(fs, s, end, start, chunk).value;
      (Val(fs, t) != 0 ==> Val(fs', t) == Val(fs, t)) &&
      if t == s && start <= i < start + |chunk| then Val(fs', t) != 0 && ByteAt(fs', t, i) == chunk[i - start]
      else if Val(fs, t) != 0 then ByteAt(fs', t, i) == ByteAt(fs, t, i)
      else Val(fs', t) != 0 ==> t == s && IsData(fs, Val(fs', t)) && !Used(fs, Val(fs', t)) && ByteAt(fs', t, i) == fs.blocks[Val(fs', t)][i]
  {
    hide Inv, Clean, Ensured, PutBytes, Grow, Ensure, Val, ByteAt;
    WriteSteps(fs, s, end);
    var f := Ensure(fs, s).value;
    EnsureByte(fs, f, s, t, i);
    GrowByte(f, s.k, end, t, i);
    PutByte(Grow(f, s.k, end), s, start, chunk, t, i);
  }

  lemma WriteSlotInodes(fs: Fs, s: Slot, end: nat, start: nat, chunk: seq<u8>)
    requires Inv(fs) && Clean(fs, s) && InTable(fs, s) && !Indirect(s) && start + |chunk| <= BLOCK_SIZE
    requires Ensure(fs, s).Some?
    ensures var fs' := WriteSlot(fs, s, end, start, chunk).value;
      Inv(fs') && UsedKept(fs, fs') && FreeKept(fs, fs') &&
      InodesOk(fs, fs', s.k, if end > fs.inodes[s.k].size then end else fs.inodes[s.k].size)
  {
    hide InBounds, Unique, AllReached;
    WriteSteps(fs, s, end);
    var g := Grow(Ensure(fs, s).value, s.k, end);
    PutBytesKeeps(g, s, start, chunk);
    FreeThen(fs, g, PutBytes(g, Val(g, s), start, chunk));
  }

  lemma WriteChunkByte(fs: Fs, k: nat, off: nat, chunk: seq<u8>, k': nat, o: nat)
    requires Inv(fs) && IsOwner(fs, k) && off < MAX_SIZE && off % BLOCK_SIZE + |chunk| <= BLOCK_SIZE
    requires Clean(fs, SlotOf(k, off / BLOCK_SIZE))
    requires WriteChunk(fs, k, off, chunk).Some? && chunk != [] && IsOwner(fs, k') && o < MAX_SIZE
    ensures ByteOk(fs, WriteChunk(fs, k, off, chunk).value, k, chunk, off, k', o)
  {
    hide InBounds, Unique, AllReached, Val, ByteAt, SlotOf, InTable, Indirect, Ensure;
    SlotInTable(fs, k, off / BLOCK_SIZE);
    SlotInTable(fs, k', o / BLOCK_SIZE);
    SlotsDiffer(k, off / BLOCK_SIZE, k', o / BLOCK_SIZE);
    SlotsDiffer(k', o / BLOCK_SIZE, k, off / BLOCK_SIZE);
    WriteSlotByte(fs, SlotOf(k, off / BLOCK_SIZE), off + |chunk|, off % BLOCK_SIZE, chunk,
                  SlotOf(k', o / BLOCK_SIZE), o % BLOCK_SIZE);
    SameBlock(off, |chunk|, o);
    SameBlock(off, |chunk|, off + |chunk| - 1);
  }

  lemma WriteChunkInodes(fs: Fs, k: nat, off: nat, chunk: seq<u8>)
    requires Inv(fs) && IsOwner(fs, k) && off < MAX_SIZE && off % BLOCK_SIZE + |chunk| <= BLOCK_SIZE
    requires Clean(fs, SlotOf(k, off / BLOCK_SIZE))
    requires WriteChunk(fs, k, off, chunk).Some?
    ensures var fs' := WriteChunk(fs, k, off, chunk).value;
      Inv(fs') && UsedKept(fs, fs') && FreeKept(fs, fs') &&
      InodesOk(fs, fs', k, if off + |chunk| > fs.inodes[k].size then off + |chunk| else fs.inodes[k].size)
  {
    hide InBounds, Unique, AllReached, UsedKept, FreeKept, InodesOk, Clean, SlotOf, InTable, Ensure, Grow, PutBytes;
    SlotInTable(fs, k, off / BLOCK_SIZE);
    SlotsDiffer(k, off / BLOCK_SIZE, k, off / BLOCK_SIZE);
    WriteSlotInodes(fs, SlotOf(k, off / BLOCK_SIZE), off + |chunk|, off % BLOCK_SIZE, chunk);
  }

  lemma WriteChunkWrites(fs: Fs, k: nat, off: nat, chunk: seq<u8>)
    requires Inv(fs) && IsOwner(fs, k) && off < MAX_SIZE && off % BLOCK_SIZE + |chunk| <= BLOCK_SIZE
    requires Clean(fs, SlotOf(k, off / BLOCK_SIZE))
    requires WriteChunk(fs, k, off, chunk).Some? && chunk != []
    ensures Wrote(fs, WriteChunk(fs, k, off, chunk).value, k, chunk, off)
  {
    hide InBounds, Unique, AllReached;
    WriteChunkInodes(fs, k, off, chunk);
    forall k': nat, o: nat ensures ByteOk(fs, WriteChunk(fs, k, off, chunk).value, k, chunk, off, k', o) {
      if IsOwner(fs, k') && o < MAX_SIZE {
        WriteChunkByte(fs, k, off, chunk, k', o);
      }
    }
  }

  lemma ByteThen(fs: Fs, f: Fs, fs': Fs, k: nat, data: seq<u8>, n: nat, off: nat, k': nat, o: nat)
    requires n <= |data| && (IsOwner(f, k') <==> IsOwner(fs, k'))
    requires Dims(fs) && Dims(f) && Dims(fs') && f.first == fs.first && f.zones == fs.zones && UsedKept(fs, f) && FreeKept(fs, f)
    requires ByteOk(fs, f, k, data[..n], off, k', o) && ByteOk(f, fs', k, data[n..], off + n, k', o)
    ensures ByteOk(fs, fs', k, data, off, k', o)
  {
    TouchedMore(off, n, |data| - n, o);
  }

  lemma WroteThen(fs: Fs, f: Fs, fs': Fs, k: nat, data: seq<u8>, n: nat, off: nat)
    requires 0 < n <= |data| && Wrote(fs, f, k, data[..n], off) && Wrote(f, fs', k, data[n..], off + n)
    ensures Wrote(fs, fs', k, data, off)
  {
    hide InBounds, Unique, AllReached;
    FreeThen(fs, f, fs');
    forall k': nat, o: nat ensures ByteOk(fs, fs', k, data, off, k', o) {
      assert ByteOk(fs, f, k, data[..n], off, k', o) && ByteOk(f, fs', k, data[n..], off + n, k', o);
      ByteThen(fs, f, fs', k, data, n, off, k', o);
    }
  }

  lemma WroteNothing(fs: Fs, k: nat, off: nat)
    requires Inv(fs) && IsOwner(fs, k)
    ensures Wrote(fs, fs, k, [], off)
  {
    forall k': nat, o: nat ensures ByteOk(fs, fs, k, [], off, k', o) {
    }
  }

  /** The zones that become indirect in the course of the write read as no zones. */
  ghost predicate CleanWrite(fs: Fs, k: nat, data: seq<u8>, off: nat)
    requires off + |data| <= MAX_SIZE
    decreases |data|
  {
    data != [] ==>
      var n := Chars(off, |data|);
      var f := WriteChunk(fs, k, off, data[..n]);
      Clean(fs, SlotOf(k, off / BLOCK_SIZE)) && (f.Some? ==> CleanWrite(f.value, k, data[n..], off + n))
  }

  /** minix_write, at any offset and for any length that fits the block map, with room enough
      and no stale indirect zone: the bytes are there, every byte written before elsewhere in
      this or any other file is unchanged, and the size is the larger of the old one and the end
      of what was written.  Writing nothing never grows a file. */
  lemma {:induction false} WriteWrites(fs: Fs, k: nat, data: seq<u8>, off: nat)
    requires Inv(fs) && IsOwner(fs, k) && off + |data| <= MAX_SIZE && CleanWrite(fs, k, data, off) && Write(fs, k, data, off).Some?
    ensures Wrote(fs, Write(fs, k, data, off).value, k, data, off)
    decreases |data|
  {
    hide InBounds, Unique, AllReached, ByteOk, WriteChunk, Clean, UsedKept, FreeKept;
    if data == [] {
      WroteNothing(fs, k, off);
    } else {
      var n := Chars(off, |data|);
      WriteChunkWrites(fs, k, off, data[..n]);
      var f := WriteChunk(fs, k, off, data[..n]).value;
      WriteWrites(f, k, data[n..], off + n);
      WroteThen(fs, f, Write(fs, k, data, off).value, k, data, n, off);
    }
  }

  // ---------------------------------------------------------------- when no indirect zone is stale

  /** The block has a zone, or only that one zone is missing. */
  predicate NoNewIndirect(fs: Fs, k: nat, block: nat)
    requires block < TOTAL_BLOCK
  {
    var s := SlotOf(k, block);
    s.Top? || Val(fs, Parent(s)) != 0
  }

  ghost predicate NoNewIndirects(fs: Fs, k: nat, off: nat, n: nat) {
    forall block: nat :: block < TOTAL_BLOCK && off / BLOCK_SIZE <= block && block * BLOCK_SIZE < off + n ==> NoNewIndirect(fs, k, block)
  }

  lemma WriteSlotKeeps(fs: Fs, s: Slot, end: nat, start: nat, chunk: seq<u8>, t: Slot)
    requires Inv(fs) && Clean(fs, s) && InTable(fs, s) && !Indirect(s) && start + |chunk| <= BLOCK_SIZE
    requires Ensure(fs, s).Some? && InTable(fs, t) && Val(fs, t) != 0
    ensures Val(WriteSlot(fs, s, end, start, chunk).value, t) == Val(fs, t)
  {
    hide InBounds, Unique, AllReached, UsedKept, FreeKept, OthersKept, PutBytes, Grow, Ensure, Val;
    WriteSteps(fs, s, end);
    var f := Ensure(fs, s).value;
    assert SlotKept(fs, f, t);
    GrowByte(f, s.k, end, t, 0);
    GrowByte(f, s.k, end, s, 0);
    PutBytesKeepsVal(Grow(f, s.k, end), s, start, chunk, t);
  }

  lemma IndirectStays(fs: Fs, k: nat, off: nat, chunk: seq<u8>, b: nat)
    requires Inv(fs) && IsOwner(fs, k) && off < MAX_SIZE && off % BLOCK_SIZE + |chunk| <= BLOCK_SIZE
    requires Clean(fs, SlotOf(k, off / BLOCK_SIZE)) && WriteChunk(fs, k, off, chunk).Some?
    requires b < TOTAL_BLOCK && NoNewIndirect(fs, k, b)
    ensures NoNewIndirect(WriteChunk(fs, k, off, chunk).value, k, b)
  {
    hide Inv, Val, Clean, Ensure;
    SlotInTable(fs, k, off / BLOCK_SIZE);
    SlotsDiffer(k, off / BLOCK_SIZE, k, off / BLOCK_SIZE);
    SlotInTable(fs, k, b);
    var t := SlotOf(k, b);
    if !t.Top? {
      ParentInTable(fs, t);
      WriteSlotKeeps(fs, SlotOf(k, off / BLOCK_SIZE), off + |chunk|, off % BLOCK_SIZE, chunk, Parent(t));
    }
  }

  lemma CleanBlock(fs: Fs, k: nat, block: nat)
    requires Inv(fs) && IsOwner(fs, k) && block < TOTAL_BLOCK && NoNewIndirect(fs, k, block)
    ensures Clean(fs, SlotOf(k, block))
  {
    hide Inv, Val;
    SlotInTable(fs, k, block);
    SlotsDiffer(k, block, k, block);
    CleanIfMapped(fs, SlotOf(k, block));
  }

  /** A write that makes no indirect zone needs no assumption on free zones. */
  lemma {:induction false} MappedWrite(fs: Fs, k: nat, data: seq<u8>, off: nat)
    requires Inv(fs) && IsOwner(fs, k) && off + |data| <= MAX_SIZE && NoNewIndirects(fs, k, off, |data|)
    ensures CleanWrite(fs, k, data, off)
    decreases |data|
  {
    hide InBounds, Unique, AllReached, UsedKept, FreeKept, Val, Clean, SlotOf, InTable, NoNewIndirect;
    if data != [] {
      var n := Chars(off, |data|);
      CleanBlock(fs, k, off / BLOCK_SIZE);
      if WriteChunk(fs, k, off, data[..n]).Some? {
        var f := WriteChunk(fs, k, off, data[..n]).value;
        WriteChunkInodes(fs, k, off, data[..n]);
        forall b: nat | b < TOTAL_BLOCK && (off + n) / BLOCK_SIZE <= b && b * BLOCK_SIZE < off + |data| ensures NoNewIndirect(f, k, b) {
          assert NoNewIndirect(fs, k, b);
          IndirectStays(fs, k, off, data[..n], b);
        }
        MappedWrite(f, k, data[n..], off + n);
      }
    }
  }

  /** Nor does a write to the seven direct blocks. */
  lemma DirectWrite(fs: Fs, k: nat, data: seq<u8>, off: nat)
    requires Inv(fs) && IsOwner(fs, k) && off + |data| <= DIRECT * BLOCK_SIZE
    ensures CleanWrite(fs, k, data, off)
  {
    MappedWrite(fs, k, data, off);
  }

  /** If all free zones read as zeros any write will do, and new bytes read as 0. */
  lemma {:induction false} CleanDiskWrite(fs: Fs, k: nat, data: seq<u8>, off: nat)
    requires Inv(fs) && FreeZonesClean(fs) && IsOwner(fs, k) && off + |data| <= MAX_SIZE
    ensures CleanWrite(fs, k, data, off)
    decreases |data|
  {
    hide InBounds, Unique, AllReached, UsedKept, FreeKept, FreeZonesClean, Clean;
    if data != [] {
      var n := Chars(off, |data|);
      SlotInTable(fs, k, off / BLOCK_SIZE);
      CleanDisk(fs, SlotOf(k, off / BLOCK_SIZE));
      if WriteChunk(fs, k, off, data[..n]).Some? {
        var f := WriteChunk(fs, k, off, data[..n]).value;
        WriteChunkInodes(fs, k, off, data[..n]);
        StaysClean(fs, f);
        CleanDiskWrite(f, k, data[n..], off + n);
      }
    }
  }

  lemma NewBytesZero(fs: Fs, k: nat, data: seq<u8>, off: nat, o: nat)
    requires Inv(fs) && FreeZonesClean(fs) && IsOwner(fs, k) && off + |data| <= MAX_SIZE && Write(fs, k, data, off).Some?
    requires o < MAX_SIZE && !Mapped(fs, k, o) && !(off <= o < off + |data|)
    ensures var fs' := Write(fs, k, data, off).value; Dims(fs') && FreeZonesClean(fs') && (Mapped(fs', k, o) ==> Byte(fs', k, o) == 0)
  {
    CleanDiskWrite(fs, k, data, off);
    WriteWrites(fs, k, data, off);
    var fs' := Write(fs, k, data, off).value;
    StaysClean(fs, fs');
    assert ByteOk(fs, fs', k, data, off, k, o);
  }

  // ---------------------------------------------------------------- reading

  /** minix_read returns EOF from the end of the file on, and otherwise up to `len` bytes. It
      asserts that every block it passes has a zone: a hole stops the kernel. */
  datatype ReadResult = Eof | Data(bytes: seq<u8>) | Stopped

  predicate Hole(fs: Fs, k: nat, o: nat) {
    o >= MAX_SIZE || !Mapped(fs, k, o)
  }

  predicate AllMapped(fs: Fs, k: nat, off: nat, n: nat) {
    forall o: nat :: off <= o < off + n ==> !Hole(fs, k, o)
  }

  lemma MappedEnd(fs: Fs, k: nat, off: nat, n: nat)
    ensures AllMapped(fs, k, off, n) ==> n == 0 || off + n <= MAX_SIZE
  {
    if AllMapped(fs, k, off, n) && n > 0 {
      assert !Hole(fs, k, off + n - 1);
    }
  }

  function Bytes(fs: Fs, k: nat, off: nat, n: nat): (r: seq<u8>)
    requires n == 0 || off + n <= MAX_SIZE
    ensures |r| == n && forall i :: 0 <= i < n ==> r[i] == Byte(fs, k, off + i)
  {
    if n == 0 then [] else Bytes(fs, k, off, n - 1) + [Byte(fs, k, off + n - 1)]
  }

  function Read(fs: Fs, k: nat, off: nat, len: nat): ReadResult {
    if k >= |fs.inodes| || off >= fs.inodes[k].size then Eof
    else
      var n := Min(len, fs.inodes[k].size - off);
      MappedEnd(fs, k, off, n);
      if AllMapped(fs, k, off, n) then Data(Bytes(fs, k, off, n)) else Stopped
  }

  /** How many bytes a read returns. */
  function Readable(fs: Fs, k: nat, off: nat, len: nat): nat
    requires k < |fs.inodes|
  {
    if off >= fs.inodes[k].size then 0 else if off + len <= fs.inodes[k].size then len else fs.inodes[k].size - off
  }

  /** End of file exactly from the size on; otherwise the bytes up to the size, as many as are asked
      for, unless there is a hole among them. */
  lemma ReadIs(fs: Fs, k: nat, off: nat, len: nat)
    requires k < |fs.inodes|
    ensures Read(fs, k, off, len).Eof? <==> off >= fs.inodes[k].size
    ensures Read(fs, k, off, len).Stopped? <==>
      off < fs.inodes[k].size && exists o: nat :: off <= o < off + Readable(fs, k, off, len) && Hole(fs, k, o)
    ensures Read(fs, k, off, len).Data? ==>
      var b := Read(fs, k, off, len).bytes;
      |b| == Readable(fs, k, off, len) && forall i :: 0 <= i < |b| ==> !Hole(fs, k, off + i) && b[i] == Byte(fs, k, off + i)
  {
    hide Hole, Byte;
  }

  /** What was written is read back. */
  lemma ReadBack(fs: Fs, k: nat, data: seq<u8>, off: nat)
    requires Inv(fs) && IsOwner(fs, k) && off + |data| <= MAX_SIZE && CleanWrite(fs, k, data, off) && Write(fs, k, data, off).Some?
    requires data != []
    ensures Read(Write(fs, k, data, off).value, k, off, |data|) == Data(data)
  {
    hide InBounds, Unique, AllReached, UsedKept, FreeKept, Val, ByteAt, SlotOf, Write, CleanWrite, StaleByte, Touched;
    WriteWrites(fs, k, data, off);
    var fs' := Write(fs, k, data, off).value;
    forall o: nat | off <= o < off + |data| ensures Mapped(fs', k, o) && Byte(fs', k, o) == data[o - off] {
      assert ByteOk(fs, fs', k, data, off, k, o);
    }
    assert Bytes(fs', k, off, |data|) == data;
  }

  lemma SameRead(fs: Fs, fs': Fs, k: nat, off: nat, len: nat)
    requires k < |fs.inodes| && k < |fs'.inodes|
    requires Readable(fs', k, off, len) == Readable(fs, k, off, len) && (off < fs'.inodes[k].size <==> off < fs.inodes[k].size)
    requires forall o: nat :: off <= o < off + Readable(fs, k, off, len) ==>
      Hole(fs', k, o) == Hole(fs, k, o) && (!Hole(fs, k, o) ==> Byte(fs', k, o) == Byte(fs, k, o))
    ensures Read(fs', k, off, len) == Read(fs, k, off, len)
  {
    hide Hole, Byte;
    ReadIs(fs, k, off, len);
    ReadIs(fs', k, off, len);
    if Read(fs, k, off, len).Data? {
      assert Read(fs', k, off, len).bytes == Read(fs, k, off, len).bytes;
    }
  }

  /** A read of any other file returns what it returned before, and so does one of a range of the
      same file that was readable and that the write does not touch. */
  lemma ReadElsewhere(fs: Fs, k: nat, data: seq<u8>, off: nat, k': nat, off': nat, len: nat)
    requires Inv(fs) && IsOwner(fs, k) && off + |data| <= MAX_SIZE && CleanWrite(fs, k, data, off) && Write(fs, k, data, off).Some?
    requires IsOwner(fs, k')
    requires k' == k ==> Read(fs, k', off', len).Data? && off' + len <= fs.inodes[k'].size
    requires k' == k ==> off' + len <= off || off + |data| <= off'
    ensures Read(Write(fs, k, data, off).value, k', off', len) == Read(fs, k', off', len)
  {
    hide InBounds, Unique, AllReached, Val, ByteAt, SlotOf, Write, CleanWrite, Mapped, Byte, ZoneAt, StaleByte, Touched;
    WriteWrites(fs, k, data, off);
    var fs' := Write(fs, k, data, off).value;
    forall o: nat | off' <= o < off' + Readable(fs, k', off', len)
      ensures Hole(fs', k', o) == Hole(fs, k', o) && (!Hole(fs, k', o) ==> Byte(fs', k', o) == Byte(fs, k', o))
    {
      assert ByteOk(fs, fs', k, data, off, k', o);
    }
    SameRead(fs, fs', k', off', len);
  }

  /** A block written to has a zone. */
  lemma TouchedMapped(fs: Fs, fs': Fs, k: nat, data: seq<u8>, off: nat, o: nat)
    requires Wrote(fs, fs', k, data, off) && off + |data| <= MAX_SIZE && o < MAX_SIZE && Touched(off, |data|, o)
    ensures Mapped(fs', k, o)
  {
    hide InBounds, Unique, AllReached;
    var p := if o < off then off else if o < off + |data| then o else off + |data| - 1;
    assert p / BLOCK_SIZE == o / BLOCK_SIZE;
    assert ByteOk(fs, fs', k, data, off, k, p);
  }

  /** A write beyond the end leaves a hole: the bytes in front of it are within the file, but
      minix_read stops at its assertion when it comes to a block that has no zone. */
  lemma HoleStops(fs: Fs, k: nat, data: seq<u8>, off: nat, o: nat)
    requires Inv(fs) && IsOwner(fs, k) && off + |data| <= MAX_SIZE && CleanWrite(fs, k, data, off) && Write(fs, k, data, off).Some?
    requires data != [] && o < MAX_SIZE && o < off + |data|
    ensures Read(Write(fs, k, data, off).value, k, o, 1).Stopped? <==> !Mapped(fs, k, o) && !Touched(off, |data|, o)
  {
    hide InBounds, Unique, AllReached, Val, ByteAt, SlotOf, Write;
    WriteWrites(fs, k, data, off);
    var fs' := Write(fs, k, data, off).value;
    assert ByteOk(fs, fs', k, data, off, k, o);
    if Touched(off, |data|, o) { TouchedMapped(fs, fs', k, data, off, o); }
    assert fs'.inodes[k].size > o;
    assert Hole(fs', k, o) == !AllMapped(fs', k, o, 1);
  }

  /** One byte written to the second block of an empty file: its first block cannot be read. */
  lemma HoleOnDisk(old_: Block, b: u8)
    ensures var fs := UsedDisk(old_);
      Write(fs, 0, [b], BLOCK_SIZE).Some? && Read(Write(fs, 0, [b], BLOCK_SIZE).value, 0, 0, 1).Stopped?
  {
    hide InBounds, Unique, AllReached;
    var fs := UsedDisk(old_);
    UsedDiskOk(old_);
    BallocFinds(fs, 10);
    assert Ensure(fs, SlotOf(0, 1)).Some?;
    assert [b][..1] == [b] && Write(fs, 0, [b], BLOCK_SIZE).Some?;
    DirectWrite(fs, 0, [b], BLOCK_SIZE);
    HoleStops(fs, 0, [b], BLOCK_SIZE, 0);
  }
}
