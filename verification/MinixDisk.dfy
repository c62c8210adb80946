/** The file system updated in place, as minix.c does it: a buffer of the zone map, the zones
    and the inodes. */
module MinixDisk {
  import opened Words
  import opened Minix
  import opened MinixZones
  import opened MinixMap
  import opened MinixFile
  import opened MinixTruncate
  import Bitmap

  /** The slot `level` steps above a slot. */
  function Up(s: Slot, level: nat): Slot
    requires level < Depth(s)
    decreases level
  {
    if level == 0 then s else Up(Parent(s), level - 1)
  }

  /** minix_bmap's arithmetic: what is left of the block number, and what to divide it by. */
  predicate Place(leaf: Slot, level: nat, left: nat, divider: nat) {
    match level
    case 0 => true
    case 1 => !leaf.Top? && divider == 1 && left == IndexIn(leaf)
    case _ => leaf.Low? && level == 2 && divider == INDEXES && left / INDEXES == leaf.a && left % INDEXES == leaf.b
  }

  /** The slot filled if it is empty. */
  function Created(fs: Fs, s: Slot): Option<Fs> {
    if Val(fs, s) != 0 then Some(fs) else Alloc(fs, s)
  }

  /** The state in which the loop of minix_bmap leaves slot s, and in which it comes to it. */
  function After(fs: Fs, s: Slot, create: bool): Fs {
    if create && Ensure(fs, s).Some? then Ensure(fs, s).value else fs
  }

  function Before(fs: Fs, s: Slot, create: bool): Fs {
    if s.Top? then fs else After(fs, Parent(s), create)
  }

  ghost predicate BmapPre(fs: Fs, leaf: Slot, create: bool) {
    Inv(fs) && InTable(fs, leaf) && (create ==> Clean(fs, leaf) && Ensure(fs, leaf).Some?)
  }

  lemma {:induction false} UpPre(fs: Fs, leaf: Slot, level: nat, create: bool)
    requires BmapPre(fs, leaf, create) && level < Depth(leaf)
    ensures BmapPre(fs, Up(leaf, level), create) && Up(leaf, level).k == leaf.k
    decreases level
  {
    if level > 0 {
      UpPre(fs, Parent(leaf), level - 1, create);
    }
  }

  lemma {:induction false} UpStep(leaf: Slot, level: nat)
    requires 0 < level < Depth(leaf)
    ensures !Up(leaf, level - 1).Top? && Parent(Up(leaf, level - 1)) == Up(leaf, level)
    decreases level
  {
    if level > 1 {
      UpStep(Parent(leaf), level - 1);
    }
  }

  /** Once a slot on the way is empty, so is the one of the block. */
  lemma {:induction false} UpEmpty(fs: Fs, leaf: Slot, level: nat)
    requires level < Depth(leaf) && Val(fs, Up(leaf, level)) == 0 && InTable(fs, leaf)
    ensures Val(fs, leaf) == 0
    decreases level
  {
    if level > 0 {
      UpEmpty(fs, Parent(leaf), level - 1);
    }
  }

  /** What a turn of the loop finds. */
  lemma Arrive(fs: Fs, s: Slot, create: bool)
    requires BmapPre(fs, s, create) && (!s.Top? ==> Val(Before(fs, s, create), Parent(s)) != 0)
    ensures var b := Before(fs, s, create);
      Dims(b) && InTable(b, s) && (!s.Top? ==> IsData(b, Val(b, Parent(s)))) &&
      (create ==> Created(b, s) == Ensure(fs, s) && Created(b, s) == Some(After(fs, s, create)))
  {
    if !s.Top? {
      ParentInTable(fs, s);
      if create { EnsureKeeps(fs, Parent(s)); }
    }
  }

  lemma Leave(fs: Fs, s: Slot, create: bool)
    requires BmapPre(fs, s, create) && (!s.Top? ==> Val(Before(fs, s, create), Parent(s)) != 0)
    ensures var a := After(fs, s, create);
      Dims(a) && InTable(a, s) && (create ==> Val(a, s) != 0) &&
      (!s.Top? ==> Val(a, Parent(s)) == Val(Before(fs, s, create), Parent(s)) && IsData(a, Val(a, Parent(s))))
  {
    if create { EnsureKeeps(fs, s); }
    if !s.Top? {
      ParentInTable(fs, s);
      if create {
        EnsureKeeps(fs, Parent(s));
        var b := Before(fs, s, create);
        ParentInTable(b, s);
        if Val(b, s) == 0 { AllocEnsures(b, s); }
        assert SlotKept(b, After(fs, s, create), Parent(s));
      }
    }
  }

  lemma MappedInBounds(fs: Fs, s: Slot)
    requires Inv(fs) && InTable(fs, s)
    ensures Val(fs, s) < |fs.blocks|
  {
  }

  /** A byte of a block next to others. */
  lemma ByteIn(fs: Fs, k: nat, off: nat, n: nat, i: nat)
    requires off + n <= MAX_SIZE && off % BLOCK_SIZE + n <= BLOCK_SIZE && i < n
    requires Val(fs, SlotOf(k, off / BLOCK_SIZE)) < |fs.blocks|
    ensures Byte(fs, k, off + i) == fs.blocks[Val(fs, SlotOf(k, off / BLOCK_SIZE))][off % BLOCK_SIZE + i]
  {
    SameBlock(off, n, off + i);
    assert (off + i) / BLOCK_SIZE == off / BLOCK_SIZE && (off + i) % BLOCK_SIZE == off % BLOCK_SIZE + i;
  }

  /** The bytes of a block follow those read before. */
  lemma BytesThen(fs: Fs, k: nat, off: nat, at: nat, n: nat, data: seq<u8>)
    requires off <= at && at + n <= MAX_SIZE && at % BLOCK_SIZE + n <= BLOCK_SIZE && at < MAX_SIZE
    requires Val(fs, SlotOf(k, at / BLOCK_SIZE)) < |fs.blocks| && data == Bytes(fs, k, off, at - off)
    ensures data + fs.blocks[Val(fs, SlotOf(k, at / BLOCK_SIZE))][at % BLOCK_SIZE..at % BLOCK_SIZE + n] ==
      Bytes(fs, k, off, at - off + n)
  {
    hide Val, SlotOf, Byte;
    var z, start := Val(fs, SlotOf(k, at / BLOCK_SIZE)), at % BLOCK_SIZE;
    var all := data + fs.blocks[z][start..start + n];
    forall i | 0 <= i < |all| ensures all[i] == Byte(fs, k, off + i) {
      if i >= at - off {
        ByteIn(fs, k, at, n, i - (at - off));
        assert fs.blocks[z][start..start + n][i - (at - off)] == fs.blocks[z][start + (i - (at - off))];
      }
    }
  }

  /** What minix_write needs and keeps. */
  ghost predicate Writable(fs: Fs, k: nat) {
    Inv(fs) && IsOwner(fs, k)
  }

  class Disk {
    const first: nat
    const zones: nat
    const zbits: array<bv8>      // the block of the zone map
    const blocks: array<Block>
    const inodes: array<Inode>

    /** The three live in different memory. */
    ghost predicate Separate() {
      var a: object, b: object, c: object := zbits, blocks, inodes;
      a != b && b != c && a != c
    }

    ghost function State(): Fs
      reads zbits, blocks, inodes
    {
      Fs(first, zones, Bitmap.Bits(zbits[..]), blocks[..], inodes[..])
    }

    /** minix_balloc. */
    method Balloc() returns (z: nat)
      requires Separate() && Dims(State()) && Minix.Balloc(State()).Some?
      modifies zbits
      ensures Some(z) == Minix.Balloc(old(State()))
      ensures State() == Mark(old(State()), z, true)
    {
      ghost var b := Bitmap.Bits(zbits[..]);
      var m := new Bitmap.Map.Make(zbits, first - 1);
      var bit := m.Scan(1);
      var i := Bitmap.FirstRun(b, 0, 1);
      assert Bitmap.Filled(b, i, 1) == b[i := true];
      z := bit;
      assert blocks[..] == old(blocks[..]) && inodes[..] == old(inodes[..]);
    }

    /** minix_bfree; the assertion on the bit is its precondition. */
    method Bfree(idx: nat)
      requires Separate() && Dims(State()) && IsData(State(), idx) && Used(State(), idx)
      modifies zbits
      ensures State() == Mark(old(State()), idx, false)
    {
      var m := new Bitmap.Map.Make(zbits, first - 1);
      var set_ := m.Test(idx);
      assert set_;
      m.Set(idx, false);
      assert blocks[..] == old(blocks[..]) && inodes[..] == old(inodes[..]);
    }

    // -------------------------------------------------------------- minix_bmap

    /** array[index], where the array is the inode's or an indirect zone. */
    method ReadSlot(inInode: bool, k: nat, array_: nat, index: nat, ghost s: Slot) returns (z: u16)
      requires Separate() && InTable(State(), s) && Dims(State()) && s.k == k && index == IndexIn(s) && inInode == s.Top?
      requires !inInode ==> array_ == Val(State(), Parent(s)) && IsData(State(), array_)
      ensures z == Val(State(), s)
    {
      if inInode {
        z := inodes[k].zone[index];
      } else {
        ParentInTable(State(), s);
        z := Word(blocks[array_], index);
      }
    }

    method WriteSlot(inInode: bool, k: nat, array_: nat, index: nat, v: u16, ghost s: Slot)
      requires Separate() && InTable(State(), s) && Dims(State()) && s.k == k && index == IndexIn(s) && inInode == s.Top?
      requires !inInode ==> array_ == Val(State(), Parent(s)) && IsData(State(), array_)
      modifies blocks, inodes
      ensures State() == PutSlot(old(State()), s, v)
    {
      if inInode {
        inodes[k] := inodes[k].(zone := inodes[k].zone[index := v]);
        assert inodes[..] == old(inodes[..])[k := inodes[k]];
      } else {
        blocks[array_] := PutWord(blocks[array_], index, v);
        assert blocks[..] == old(blocks[..])[array_ := blocks[array_]];
      }
      assert zbits[..] == old(zbits[..]);
    }

    /** The part of the loop of minix_bmap that creates what is missing. */
    method CreateSlot(inInode: bool, k: nat, array_: nat, index: nat, ghost s: Slot)
      requires Separate() && InTable(State(), s) && Dims(State()) && s.k == k && index == IndexIn(s) && inInode == s.Top?
      requires !inInode ==> array_ == Val(State(), Parent(s)) && IsData(State(), array_)
      requires Created(State(), s).Some?
      modifies zbits, blocks, inodes
      ensures Some(State()) == Created(old(State()), s)
    {
      var z := ReadSlot(inInode, k, array_, index, s);
      if z == 0 {
        var new_ := Balloc();
        WriteSlot(inInode, k, array_, index, new_, s);
      }
    }

    /** minix_bmap: the loop walks down from the inode, level by level. */
    method Bmap(k: nat, block: nat, create: bool) returns (z: u16)
      requires Separate() && Inv(State()) && IsOwner(State(), k) && block < TOTAL_BLOCK
      requires create ==> Clean(State(), SlotOf(k, block)) && Ensure(State(), SlotOf(k, block)).Some?
      modifies zbits, blocks, inodes
      ensures create ==> Some(State()) == Ensure(old(State()), SlotOf(k, block))
      ensures !create ==> State() == old(State())
      ensures z == Val(State(), SlotOf(k, block))
    {
      hide Inv, Clean, Ensure, Val, Created, State, InTable;
      SlotInTable(State(), k, block);
      var index: nat, level: nat, divider: nat := block, 0, 1;
      var left: nat := block;
      if block >= DIRECT {
        left := left - DIRECT;
        if left < INDEXES {
          index, level := DIRECT, 1;
        } else {
          left := left - INDEXES;
          index, level, divider := DIRECT + 1, 2, INDEXES;
        }
      }
      var inInode: bool, array_: nat := true, 0;
      ghost var leaf := SlotOf(k, block);
      while true
        invariant level < Depth(leaf) && Place(leaf, level, left, divider)
        invariant inInode == Up(leaf, level).Top? && index == IndexIn(Up(leaf, level))
        invariant State() == Before(old(State()), Up(leaf, level), create)
        invariant !inInode ==> array_ == Val(State(), Parent(Up(leaf, level))) != 0
        decreases level
      {
        ghost var s := Up(leaf, level);
        UpPre(old(State()), leaf, level, create);
        Arrive(old(State()), s, create);
        if create {
          CreateSlot(inInode, k, array_, index, s);
        }
        Leave(old(State()), s, create);
        z := ReadSlot(inInode, k, array_, index, s);
        if level == 0 || z == 0 {
          if level > 0 {
            UpEmpty(State(), leaf, level);
          }
          return;
        }
        UpStep(leaf, level);
        inInode, array_ := false, z;
        index := left / divider;
        left := left % divider;
        divider := divider / INDEXES;
        level := level - 1;
      }
    }

    // -------------------------------------------------------------- minix_read, minix_write

    /** The part of the loop of minix_write that follows minix_bmap. */
    method PutChunk(k: nat, nr: nat, offset: nat, chunk: seq<u8>)
      requires Separate() && k < inodes.Length && nr < blocks.Length && offset % BLOCK_SIZE + |chunk| <= BLOCK_SIZE
      modifies blocks, inodes
      ensures State() == PutBytes(Grow(old(State()), k, offset + |chunk|), nr, offset % BLOCK_SIZE, chunk)
    {
      if offset + |chunk| > inodes[k].size {
        inodes[k] := inodes[k].(size := offset + |chunk|);
      }
      assert inodes[..] == Grow(old(State()), k, offset + |chunk|).inodes;
      blocks[nr] := Splice(blocks[nr], offset % BLOCK_SIZE, chunk);
      assert blocks[..] == old(blocks[..])[nr := blocks[nr]];
      assert zbits[..] == old(zbits[..]);
    }

    method WriteOnce(k: nat, offset: nat, chunk: seq<u8>)
      requires Separate() && Inv(State()) && IsOwner(State(), k)
      requires offset < MAX_SIZE && offset % BLOCK_SIZE + |chunk| <= BLOCK_SIZE && chunk != []
      requires Clean(State(), SlotOf(k, offset / BLOCK_SIZE)) && WriteChunk(State(), k, offset, chunk).Some?
      modifies zbits, blocks, inodes
      ensures Some(State()) == WriteChunk(old(State()), k, offset, chunk)
      ensures Inv(State()) && IsOwner(State(), k)
    {
      hide InBounds, Unique, AllReached, UsedKept, FreeKept, Clean, Val, State, InTable, ByteOk;
      SlotInTable(State(), k, offset / BLOCK_SIZE);
      EnsureKeeps(State(), SlotOf(k, offset / BLOCK_SIZE));
      WriteChunkWrites(State(), k, offset, chunk);
      var nr := Bmap(k, offset / BLOCK_SIZE, true);
      MappedInBounds(State(), SlotOf(k, offset / BLOCK_SIZE));
      StateIs();
      PutChunk(k, nr, offset, chunk);
    }

    lemma StateIs()
      ensures |State().blocks| == blocks.Length && |State().inodes| == inodes.Length
    {
    }

    /** minix_write. */
    method Write(k: nat, data: seq<u8>, offset: nat) returns (n: nat)
      requires Separate() && Inv(State()) && IsOwner(State(), k)
      requires offset + |data| <= MAX_SIZE && CleanWrite(State(), k, data, offset) && MinixFile.Write(State(), k, data, offset).Some?
      modifies zbits, blocks, inodes
      ensures Some(State()) == MinixFile.Write(old(State()), k, data, offset) && n == |data|
    {
      hide Inv, Clean, Val, State, WriteChunk, IsOwner;
      var at: nat, left := offset, data;
      while left != []
        invariant at + |left| == offset + |data|
        invariant Writable(State(), k) && CleanWrite(State(), k, left, at)
        invariant MinixFile.Write(State(), k, left, at) == MinixFile.Write(old(State()), k, data, offset)
        decreases |left|
      {
        var chars := Chars(at, |left|);
        WriteOnce(k, at, left[..chars]);
        at := at + chars;
        left := left[chars..];
      }
      n := at - offset;
    }

    /** minix_read; that the file has no hole there is its own assertion. */
    method Read(k: nat, len: nat, offset: nat) returns (r: ReadResult)
      requires Separate() && Inv(State()) && IsOwner(State(), k) && !MinixFile.Read(State(), k, offset, len).Stopped?
      modifies zbits, blocks, inodes
      ensures State() == old(State())
      ensures r == MinixFile.Read(State(), k, offset, len)
    {
      hide Inv, Val, Byte, SlotOf, InTable;
      if offset >= inodes[k].size {
        return Eof;
      }
      var left: nat := Min(len, inodes[k].size - offset);
      ghost var n := left;
      MappedEnd(State(), k, offset, n);
      var at: nat, data: seq<u8> := offset, [];
      while left > 0
        invariant State() == old(State()) && at + left == offset + n && at >= offset
        invariant data == Bytes(State(), k, offset, at - offset)
      {
        assert !Hole(State(), k, at);
        var nr := Bmap(k, at / BLOCK_SIZE, false);
        var chars := Chars(at, left);
        SlotInTable(State(), k, at / BLOCK_SIZE);
        MappedInBounds(State(), SlotOf(k, at / BLOCK_SIZE));
        BytesThen(State(), k, offset, at, chars, data);
        data := data + blocks[nr][at % BLOCK_SIZE..at % BLOCK_SIZE + chars];
        at := at + chars;
        left := left - chars;
      }
      r := Data(data);
    }

    // -------------------------------------------------------------- inode_bfree, minix_truncate

    /** inode_bfree for the zone number z found in its slot. */
    method InodeBfree(z: nat, level: nat)
      requires Separate() && Dims(State()) && TreeOk(State(), z, level)
      modifies zbits
      ensures FreedTree(old(State()), State(), z, level)
      decreases level
    {
      if z == 0 {
        return;
      }
      ghost var start := State();
      if level > 0 {
        var i := 0;
        while i < INDEXES
          invariant 0 <= i <= INDEXES && FreedFirst(start, State(), z, level - 1, i)
        {
          ghost var cur := State();
          NextTreeOk(start, cur, z, level - 1, i);
          InodeBfree(Word(blocks[z], i), level - 1);
          FreedNext(start, cur, State(), z, level - 1, i);
          i := i + 1;
        }
      }
      FreedWhole(start, State(), z, level);
      Bfree(z);
    }

    method FreeTop(k: nat, i: nat, level: nat, ghost start: Fs)
      requires Separate() && Inv(start) && InTable(start, Top(k, i)) && TopsFreed(start, State(), k, i) && level == Level(Top(k, i))
      modifies zbits, inodes
      ensures TopsFreed(start, State(), k, i + 1)
    {
      ghost var cur := State();
      TopTreeOk(start, cur, k, i);
      InodeBfree(inodes[k].zone[i], level);
      TopsNext(start, cur, State(), k, i);
      ghost var freed := State();
      inodes[k] := inodes[k].(zone := inodes[k].zone[i := 0]);
      assert inodes[..] == freed.inodes[k := inodes[k]];
      assert State() == ClearTop(freed, k, i);
    }

    /** minix_truncate. */
    method Truncate(k: nat) returns (ok: bool)
      requires Separate() && Inv(State()) && k < inodes.Length
      modifies zbits, inodes
      ensures ok == IsOwner(old(State()), k)
      ensures if ok then Truncated(old(State()), State(), k) else State() == old(State())
    {
      if !inodes[k].kind.File? && !inodes[k].kind.Directory? {
        return false;
      }
      ghost var start := State();
      assert TopsFreed(start, State(), k, 0);
      var i := 0;
      while i < DIRECT
        invariant 0 <= i <= DIRECT && TopsFreed(start, State(), k, i)
      {
        FreeTop(k, i, 0, start);
        i := i + 1;
      }
      FreeTop(k, DIRECT, 1, start);
      FreeTop(k, DIRECT + 1, 2, start);
      ghost var cur := State();
      TopsDone(start, cur, k);
      inodes[k] := inodes[k].(size := 0);
      assert inodes[..] == cur.inodes[k := inodes[k]];
      ok := true;
    }
  }
}
