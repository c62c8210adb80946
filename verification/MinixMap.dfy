/** minix_bmap: from the blocks of a file to zones. */
module MinixMap {
  import opened Words
  import opened Minix
  import opened MinixZones
  import Bitmap

  // ---------------------------------------------------------------- block numbers

  /** The slot of a block of the file: direct, single or double indirect. */
  function SlotOf(k: nat, block: nat): Slot
    requires block < TOTAL_BLOCK
  {
    if block < DIRECT then Top(k, block)
    else if block < DIRECT + INDEXES then Mid(k, 7, block - DIRECT)
    else Low(k, (block - DIRECT - INDEXES) / INDEXES, (block - DIRECT - INDEXES) % INDEXES)
  }

  /** Every block has a slot of its own, and the slots that hold file blocks are those that
      do not hold indirect zones. */
  lemma SlotsDiffer(k: nat, block: nat, k': nat, block': nat)
    requires block < TOTAL_BLOCK && block' < TOTAL_BLOCK
    ensures SlotOf(k, block) == SlotOf(k', block') <==> k == k' && block == block'
    ensures !Indirect(SlotOf(k, block)) && SlotOf(k, block).k == k
  {
    var n, n' := block - DIRECT - INDEXES, block' - DIRECT - INDEXES;
    if n >= 0 && n' >= 0 {
      assert n == n / INDEXES * INDEXES + n % INDEXES;
      assert n' == n' / INDEXES * INDEXES + n' % INDEXES;
    }
  }

  /** Every slot that does not hold an indirect zone is the slot of a block. */
  lemma SlotsCovered(s: Slot) returns (block: nat)
    requires !Indirect(s)
    requires match s case Top(_, i) => i < 9 case Mid(_, i, a) => i == 7 && a < INDEXES case Low(_, a, b) => a < INDEXES && b < INDEXES
    ensures block < TOTAL_BLOCK && SlotOf(s.k, block) == s
  {
    match s
    case Top(_, i) => block := i;
    case Mid(_, _, a) => block := DIRECT + a;
    case Low(_, a, b) =>
      block := DIRECT + INDEXES + a * INDEXES + b;
      assert (a * INDEXES + b) / INDEXES == a && (a * INDEXES + b) % INDEXES == b;
  }

  lemma SlotInTable(fs: Fs, k: nat, block: nat)
    requires k < |fs.inodes| && Owner(fs.inodes[k]) && block < TOTAL_BLOCK
    ensures InTable(fs, SlotOf(k, block))
  {
  }

  // ---------------------------------------------------------------- creating what is missing

  /** A zone is handed out and its number written to the slot. */
  function Alloc(fs: Fs, s: Slot): Option<Fs> {
    var z := Balloc(fs);
    if z.Some? && z.value < 0x1_0000 then Some(PutSlot(Mark(fs, z.value, true), s, z.value)) else None
  }

  lemma BallocIsFree(fs: Fs)
    requires Inv(fs) && Balloc(fs).Some?
    ensures IsData(fs, Balloc(fs).value) && !Used(fs, Balloc(fs).value)
  {
    Bitmap.FirstRunIsFirst(fs.zmap, 0, 1);
  }

  /** A free zone is found if there is one. */
  lemma BallocFinds(fs: Fs, z: nat)
    requires Inv(fs) && IsData(fs, z) && !Used(fs, z)
    ensures Balloc(fs).Some? && Balloc(fs).value <= z
  {
    Bitmap.FirstRunIsFirst(fs.zmap, 0, 1);
    assert Bitmap.ClearRun(fs.zmap, z - (fs.first - 1), 1);
  }

  /** The slot and the slots above it that are missing are filled, from the top down; None if
      the disk is full. */
  function Ensure(fs: Fs, s: Slot): Option<Fs>
    decreases if s.Top? then 0 else if s.Mid? then 1 else 2
  {
    var up := if s.Top? then Some(fs) else Ensure(fs, Parent(s));
    if up.None? || Val(up.value, s) != 0 then up else Alloc(up.value, s)
  }

  function Depth(s: Slot): nat {
    if s.Top? then 1 else if s.Mid? then 2 else 3
  }

  predicate Above(s: Slot, t: Slot) {
    s == t || Below(s, t)
  }

  /** Nothing but zone numbers of inode k changes in the inodes. */
  ghost predicate SameFrame(fs: Fs, fs': Fs, k: nat) {
    fs'.first == fs.first && fs'.zones == fs.zones && |fs'.inodes| == |fs.inodes| &&
    forall j :: 0 <= j < |fs.inodes| ==>
      fs'.inodes[j] == if j == k then fs.inodes[j].(zone := fs'.inodes[j].zone) else fs.inodes[j]
  }

  ghost predicate SlotKept(fs: Fs, fs': Fs, t: Slot) {
    InTable(fs, t) && Val(fs, t) != 0 ==> Val(fs', t) == Val(fs, t)
  }

  /** The contents of a file block are not touched. */
  ghost predicate DataKept(fs: Fs, fs': Fs, t: Slot) {
    InTable(fs, t) && Val(fs, t) != 0 && !Indirect(t) && Val(fs, t) < |fs.blocks| == |fs'.blocks| ==>
      fs'.blocks[Val(fs, t)] == fs.blocks[Val(fs, t)]
  }

  ghost function NewZones(fs: Fs, fs': Fs): set<nat>
    requires Dims(fs) && Dims(fs')
  {
    set z: nat | z < BLOCK_BITS && !Used(fs, z) && Used(fs', z)
  }

  ghost predicate AllKept(fs: Fs, fs': Fs) {
    forall t :: SlotKept(fs, fs', t) && DataKept(fs, fs', t)
  }

  ghost predicate OthersKept(fs: Fs, fs': Fs, s: Slot) {
    forall t :: InTable(fs, t) && !Above(t, s) ==> Val(fs', t) == Val(fs, t)
  }

  ghost predicate UsedKept(fs: Fs, fs': Fs)
    requires Dims(fs) && Dims(fs')
  {
    forall z: nat :: z < BLOCK_BITS && Used(fs, z) ==> Used(fs', z)
  }

  /** A zone that is free still holds what it held. */
  ghost predicate FreeKept(fs: Fs, fs': Fs)
    requires Dims(fs) && Dims(fs')
  {
    forall z: nat :: z < |fs.blocks| && !Used(fs', z) ==> z < |fs'.blocks| && fs'.blocks[z] == fs.blocks[z]
  }

  /** A zone handed out was free, and nobody clears it: a new file block still holds what was
      in the zone. */
  ghost predicate NewIsStale(fs: Fs, fs': Fs, s: Slot)
    requires Dims(fs) && Dims(fs')
  {
    Val(fs, s) == 0 && !Indirect(s) ==>
      IsData(fs, Val(fs', s)) && !Used(fs, Val(fs', s)) && |fs'.blocks| == |fs.blocks| &&
      fs'.blocks[Val(fs', s)] == fs.blocks[Val(fs', s)]
  }

  /** What creating slot s does. */
  ghost predicate Ensured(fs: Fs, fs': Fs, s: Slot) {
    Inv(fs) && Inv(fs') && SameFrame(fs, fs', s.k) && Val(fs', s) != 0 &&
    AllKept(fs, fs') && OthersKept(fs, fs', s) && NewIsStale(fs, fs', s) && UsedKept(fs, fs') && FreeKept(fs, fs') &&
    |NewZones(fs, fs')| <= Depth(s)
  }

  /** The state in which slot s is looked at. */
  function ComingTo(fs: Fs, s: Slot): Option<Fs> {
    if s.Top? then Some(fs) else Ensure(fs, Parent(s))
  }

  /** Of the zones that creating slot s hands out, those that become indirect read as no zones. */
  ghost predicate Clean(fs: Fs, s: Slot)
    decreases Depth(s)
  {
    (!s.Top? ==> Clean(fs, Parent(s))) && (ComingTo(fs, s).Some? ==> CleanHere(ComingTo(fs, s).value, s))
  }

  predicate CleanHere(fs: Fs, s: Slot) {
    var z := Balloc(fs);
    Indirect(s) && Val(fs, s) == 0 && z.Some? && z.value < |fs.blocks| ==> NoZones(fs.blocks[z.value])
  }

  lemma ZeroedNoZones(s: Block)
    requires Zeroed(s)
    ensures NoZones(s)
  {
  }

  lemma AllocStale(fs: Fs, s: Slot, v: u16)
    requires Fillable(fs, s, v)
    ensures Dims(Fill(fs, s, v)) && FreeKept(fs, Fill(fs, s, v)) && Fill(fs, s, v).blocks[v] == fs.blocks[v]
  {
    var fs' := Fill(fs, s, v);
    if !s.Top? {
      ParentInTable(fs, s);
      assert Used(fs, Val(fs, Parent(s)));
    }
    forall z: nat | z < |fs.blocks| && !Used(fs', z) ensures fs'.blocks[z] == fs.blocks[z] {
      FillUsed(fs, s, v, z);
    }
  }

  lemma AllocFrame(fs: Fs, s: Slot, v: u16)
    requires Fillable(fs, s, v)
    ensures SameFrame(fs, Fill(fs, s, v), s.k) && |Fill(fs, s, v).blocks| == |fs.blocks|
  {
  }

  lemma AllocKept(fs: Fs, s: Slot, v: u16, t: Slot)
    requires Fillable(fs, s, v) && (Indirect(s) ==> NoZones(fs.blocks[v]))
    ensures SlotKept(fs, Fill(fs, s, v), t) && DataKept(fs, Fill(fs, s, v), t)
    ensures InTable(fs, t) && t != s ==> Val(Fill(fs, s, v), t) == Val(fs, t)
  {
    if InTable(fs, t) {
      FillKept(fs, s, v, t);
      if Below(s, t) { FillBelow(fs, s, v, t); }
      if !s.Top? {
        ParentInTable(fs, s);
        assert Same(fs, t, Parent(s));
      }
    }
  }

  /** One zone more. */
  lemma AllocEnsures(fs: Fs, s: Slot)
    requires Inv(fs) && CleanHere(fs, s) && InTable(fs, s) && Val(fs, s) == 0 && (!s.Top? ==> Val(fs, Parent(s)) != 0)
    requires Alloc(fs, s).Some?
    ensures Ensured(fs, Alloc(fs, s).value, s) && |NewZones(fs, Alloc(fs, s).value)| <= 1
  {
    hide PutSlot, Val;
    BallocIsFree(fs);
    var v, fs' := Balloc(fs).value, Alloc(fs, s).value;
    FillKeeps(fs, s, v);
    AllocStale(fs, s, v);
    AllocFrame(fs, s, v);
    OneNewZone(fs, s, v);
    AllocKeptAll(fs, s, v);
    FillKept(fs, s, v, s);
  }

  lemma AllocKeptAll(fs: Fs, s: Slot, v: u16)
    requires Fillable(fs, s, v) && (Indirect(s) ==> NoZones(fs.blocks[v]))
    ensures AllKept(fs, Fill(fs, s, v)) && OthersKept(fs, Fill(fs, s, v), s)
  {
    forall t ensures SlotKept(fs, Fill(fs, s, v), t) && DataKept(fs, Fill(fs, s, v), t) {
      AllocKept(fs, s, v, t);
    }
    forall t | InTable(fs, t) && t != s ensures Val(Fill(fs, s, v), t) == Val(fs, t) {
      AllocKept(fs, s, v, t);
    }
  }

  lemma OneNewZone(fs: Fs, s: Slot, v: u16)
    requires Fillable(fs, s, v)
    ensures var fs' := Fill(fs, s, v); Dims(fs') && |NewZones(fs, fs')| <= 1 && forall z: nat :: Used(fs, z) ==> Used(fs', z)
  {
    var fs' := Fill(fs, s, v);
    forall z: nat ensures Dims(fs') && Used(fs', z) == (z == v || Used(fs, z)) {
      FillUsed(fs, s, v, z);
    }
    assert NewZones(fs, fs') <= {v};
    Smaller(NewZones(fs, fs'), {v});
  }

  lemma {:induction false} Smaller(a: set<nat>, b: set<nat>)
    requires a <= b
    ensures |a| <= |b|
  {
    if a != {} {
      var x :| x in a;
      Smaller(a - {x}, b - {x});
    }
  }

  lemma KeptThen(fs: Fs, f: Fs, fs': Fs, k: nat)
    requires Dims(fs) && Dims(f) && AllKept(fs, f) && AllKept(f, fs') && SameFrame(fs, f, k)
    ensures AllKept(fs, fs')
  {
    forall t ensures SlotKept(fs, fs', t) && DataKept(fs, fs', t) {
      assert SlotKept(fs, f, t) && DataKept(fs, f, t) && SlotKept(f, fs', t) && DataKept(f, fs', t);
    }
  }

  lemma OthersThen(fs: Fs, f: Fs, fs': Fs, p: Slot, s: Slot)
    requires !s.Top? && Parent(s) == p && OthersKept(fs, f, p) && OthersKept(f, fs', s) && SameFrame(fs, f, s.k)
    ensures OthersKept(fs, fs', s)
    ensures InTable(fs, s) ==> Val(f, s) == Val(fs, s)
  {
    forall t | InTable(fs, t) && !Above(t, s) ensures Val(fs', t) == Val(fs, t) {
      assert !Above(t, p);
    }
    assert !Above(s, p);
  }

  /** The file block found empty after its indirect zone was created was empty before. */
  lemma StaleThen(fs: Fs, f: Fs, fs': Fs, s: Slot)
    requires Dims(fs) && Dims(f) && Dims(fs') && SameFrame(fs, f, s.k) && UsedKept(fs, f) && FreeKept(fs, f)
    requires Val(f, s) == Val(fs, s) && NewIsStale(f, fs', s)
    ensures NewIsStale(fs, fs', s)
  {
  }

  lemma FreeThen(fs: Fs, f: Fs, fs': Fs)
    requires Dims(fs) && Dims(f) && Dims(fs') && f.first == fs.first && fs'.first == fs.first && fs'.zones == f.zones
    requires FreeKept(fs, f) && FreeKept(f, fs') && UsedKept(fs, f) && UsedKept(f, fs')
    ensures FreeKept(fs, fs') && UsedKept(fs, fs')
  {
    forall z: nat | z < |fs.blocks| && !Used(fs', z) ensures z < |fs'.blocks| && fs'.blocks[z] == fs.blocks[z] {
      assert !Used(f, z);
    }
  }

  lemma EnsuredThen(fs: Fs, f: Fs, fs': Fs, p: Slot, s: Slot)
    requires !s.Top? && Parent(s) == p && InTable(fs, s) && Ensured(fs, f, p)
    requires Ensured(f, fs', s) && |NewZones(f, fs')| <= 1
    ensures Ensured(fs, fs', s)
  {
    hide InBounds, Unique, AllReached, AllKept, OthersKept, Val, FreeKept, NewIsStale, UsedKept;
    Smaller(NewZones(fs, fs'), NewZones(fs, f) + NewZones(f, fs'));
    KeptThen(fs, f, fs', s.k);
    OthersThen(fs, f, fs', p, s);
    StaleThen(fs, f, fs', s);
    FreeThen(fs, f, fs');
  }

  lemma NothingToDo(fs: Fs, s: Slot)
    requires Inv(fs) && Val(fs, s) != 0
    ensures Ensured(fs, fs, s) && |NewZones(fs, fs)| <= 1
  {
    assert NewZones(fs, fs) == {};
  }

  /** minix_bmap with create: the ownership of zones is kept, the block now has a zone, every
      other block keeps its zone and contents, a new block holds what was in its zone, and no
      more than one zone for each level was handed out. */
  lemma {:induction false} EnsureKeeps(fs: Fs, s: Slot)
    requires Inv(fs) && Clean(fs, s) && InTable(fs, s) && Ensure(fs, s).Some?
    ensures Ensured(fs, Ensure(fs, s).value, s)
    decreases Depth(s)
  {
    hide InBounds, Unique, AllReached, AllKept, OthersKept, NewZones, FreeKept, NewIsStale, UsedKept;
    var fs' := Ensure(fs, s).value;
    if s.Top? {
      if Val(fs, s) != 0 { NothingToDo(fs, s); } else { AllocEnsures(fs, s); }
    } else {
      var p := Parent(s);
      ParentInTable(fs, s);
      EnsureKeeps(fs, p);
      var f := Ensure(fs, p).value;
      if Val(f, s) != 0 { NothingToDo(f, s); } else { AllocEnsures(f, s); }
      EnsuredThen(fs, f, fs', p, s);
    }
  }

  // ---------------------------------------------------------------- what a stale indirect zone does

  /** A zone number out of place: out of bounds, of a free zone, or in two slots. */
  ghost predicate Bad(fs: Fs) {
    Dims(fs) && fs.zmap[0] && (!InBounds(fs) || !Unique(fs))
  }

  /** Writing a zone number to an empty slot changes no zone number there is, whatever state
      the disk is in. */
  lemma {:induction false} PutSlotKeeps(fs: Fs, s: Slot, z: u16, v: u16, t: Slot)
    requires Val(fs, s) == 0 && (!s.Top? ==> Val(fs, Parent(s)) != 0) && Val(fs, t) != 0
    ensures Val(PutSlot(Mark(fs, z, true), s, v), t) == Val(fs, t)
    decreases Depth(t)
  {
    if !t.Top? {
      PutSlotKeeps(fs, s, z, v, Parent(t));
      if !s.Top? && Val(fs, Parent(s)) < |fs.blocks| && IndexIn(s) < INDEXES && IndexIn(t) < INDEXES {
        PutWordGet(fs.blocks[Val(fs, Parent(s))], IndexIn(s), v, IndexIn(t));
      }
    }
  }

  lemma AllocTable(fs: Fs, s: Slot, t: Slot)
    requires Dims(fs) && Alloc(fs, s).Some?
    ensures var fs' := Alloc(fs, s).value;
      Dims(fs') && fs'.first == fs.first && fs'.zones == fs.zones && fs'.zmap == Mark(fs, Balloc(fs).value, true).zmap &&
      InTable(fs', t) == InTable(fs, t)
  {
  }

  /** The slot is filled, unless the zone it is in does not exist. */
  lemma AllocFills(fs: Fs, s: Slot)
    requires Dims(fs) && fs.zmap[0] && InTable(fs, s) && Val(fs, s) == 0 && Alloc(fs, s).Some?
    requires !s.Top? ==> Val(fs, Parent(s)) != 0 && IsData(fs, Val(fs, Parent(s)))
    ensures Val(Alloc(fs, s).value, s) == Balloc(fs).value && IsData(fs, Balloc(fs).value)
  {
    Bitmap.FirstRunIsFirst(fs.zmap, 0, 1);
    var z := Balloc(fs).value;
    if !s.Top? {
      ParentInTable(fs, s);
      PutSlotKeeps(fs, s, z, z, Parent(s));
      PutWordGet(fs.blocks[Val(fs, Parent(s))], IndexIn(s), z, IndexIn(s));
    }
  }

  lemma BadStays(fs: Fs, s: Slot)
    requires Bad(fs) && InTable(fs, s) && Val(fs, s) == 0 && (!s.Top? ==> Val(fs, Parent(s)) != 0) && Alloc(fs, s).Some?
    ensures Bad(Alloc(fs, s).value)
  {
    Bitmap.FirstRunIsFirst(fs.zmap, 0, 1);
    var z, fs' := Balloc(fs).value, Alloc(fs, s).value;
    AllocTable(fs, s, s);
    if !InBounds(fs) {
      var t :| InTable(fs, t) && Val(fs, t) != 0 && !(IsData(fs, Val(fs, t)) && Used(fs, Val(fs, t)));
      BadBounds(fs, s, t);
    } else {
      var t, u :| !Same(fs, t, u);
      AllocTable(fs, s, t);
      AllocTable(fs, s, u);
      PutSlotKeeps(fs, s, z, z, t);
      PutSlotKeeps(fs, s, z, z, u);
      assert !Same(fs', t, u);
    }
  }

  /** If the zone named out of place is the one handed out now, two slots name it. */
  lemma BadBounds(fs: Fs, s: Slot, t: Slot)
    requires Dims(fs) && fs.zmap[0] && InTable(fs, s) && Val(fs, s) == 0 && (!s.Top? ==> Val(fs, Parent(s)) != 0) && Alloc(fs, s).Some?
    requires InTable(fs, t) && Val(fs, t) != 0 && !(IsData(fs, Val(fs, t)) && Used(fs, Val(fs, t)))
    ensures Bad(Alloc(fs, s).value)
  {
    hide Val, PutSlot;
    Bitmap.FirstRunIsFirst(fs.zmap, 0, 1);
    var z, fs' := Balloc(fs).value, Alloc(fs, s).value;
    AllocTable(fs, s, s);
    AllocTable(fs, s, t);
    PutSlotKeeps(fs, s, z, z, t);
    if Val(fs, t) != z {
      assert !IsData(fs', Val(fs', t)) || !Used(fs', Val(fs', t));
    } else if s.Top? || IsData(fs, Val(fs, Parent(s))) {
      AllocFills(fs, s);
      assert !Same(fs', s, t);
    } else {
      ParentInTable(fs, s);
      AllocTable(fs, s, Parent(s));
      PutSlotKeeps(fs, s, z, z, Parent(s));
      assert !IsData(fs', Val(fs', Parent(s)));
    }
  }

  lemma StaleIsBad(fs: Fs, s: Slot)
    requires Inv(fs) && InTable(fs, s) && Val(fs, s) == 0 && (!s.Top? ==> Val(fs, Parent(s)) != 0)
    requires !CleanHere(fs, s) && Alloc(fs, s).Some?
    ensures var fs' := Alloc(fs, s).value; Bad(fs') && IsData(fs', Val(fs', s))
  {
    hide PutSlot, Val;
    BallocIsFree(fs);
    var v := Balloc(fs).value;
    var j: nat :| j < INDEXES && Word(fs.blocks[v], j) != 0;
    StaleBreaks(fs, s, v, j);
    FillKeepsReached(fs, s, v);
    FillKept(fs, s, v, s);
    FillUsed(fs, s, v, fs.first - 1);
    AllocTable(fs, s, s);
    var fs' := Fill(fs, s, v);
    assert Used(fs, fs.first - 1) && fs'.first == fs.first by {
      AllocFrame(fs, s, v);
    }
    assert fs'.zmap[0];
  }

  /** Once a stale indirect zone was handed out, what is created below it does not mend it. */
  lemma {:induction false} EnsureBreaks(fs: Fs, s: Slot)
    requires Inv(fs) && !Clean(fs, s) && InTable(fs, s) && Ensure(fs, s).Some?
    ensures var fs' := Ensure(fs, s).value;
      Bad(fs') && InTable(fs', s) && (s.Top? ==> IsData(fs', Val(fs', s))) && (s.Mid? ==> Val(fs', s) != 0)
    decreases Depth(s)
  {
    hide InBounds, Unique, AllReached, PutSlot;
    if s.Top? {
      StaleIsBad(fs, s);
      AllocTable(fs, s, s);
    } else {
      var p := Parent(s);
      ParentInTable(fs, s);
      var f := Ensure(fs, p).value;
      if Clean(fs, p) {
        EnsureKeeps(fs, p);
        StaleIsBad(f, s);
        AllocTable(f, s, s);
      } else {
        EnsureBreaks(fs, p);
        if Val(f, s) == 0 {
          BadStays(f, s);
          AllocTable(f, s, s);
          if s.Mid? { AllocFills(f, s); }
        }
      }
    }
  }

  /** minix_bmap with create keeps the ownership of zones exactly when the zones it makes
      indirect happen to read as no zones; file blocks may be handed any free zone. */
  lemma EnsureExact(fs: Fs, s: Slot)
    requires Inv(fs) && InTable(fs, s) && Ensure(fs, s).Some?
    ensures Inv(Ensure(fs, s).value) <==> Clean(fs, s)
  {
    if Clean(fs, s) { EnsureKeeps(fs, s); } else { EnsureBreaks(fs, s); }
  }

  // ---------------------------------------------------------------- when that holds

  /** With the indirect zones of the block in place, any disk will do; a direct block has none. */
  lemma CleanIfMapped(fs: Fs, s: Slot)
    requires Inv(fs) && InTable(fs, s) && !Indirect(s) && (!s.Top? ==> Val(fs, Parent(s)) != 0)
    ensures Clean(fs, s)
  {
  }

  lemma StaysClean(fs: Fs, fs': Fs)
    requires Dims(fs) && Dims(fs') && fs'.first == fs.first && fs'.zones == fs.zones
    requires FreeZonesClean(fs) && UsedKept(fs, fs') && FreeKept(fs, fs')
    ensures FreeZonesClean(fs')
  {
    forall z: nat | IsData(fs', z) && !Used(fs', z) ensures Zeroed(fs'.blocks[z]) {
      assert !Used(fs, z);
    }
  }

  /** On a disk whose free zones read as zeros it always holds, and the disk stays one. */
  lemma {:induction false} CleanDisk(fs: Fs, s: Slot)
    requires Inv(fs) && FreeZonesClean(fs) && InTable(fs, s)
    ensures Clean(fs, s)
    decreases Depth(s)
  {
    hide InBounds, Unique, AllReached, AllKept, OthersKept, NewZones, FreeKept, NewIsStale, UsedKept;
    var up := ComingTo(fs, s);
    if !s.Top? {
      ParentInTable(fs, s);
      CleanDisk(fs, Parent(s));
      if up.Some? {
        EnsureKeeps(fs, Parent(s));
        StaysClean(fs, up.value);
      }
    }
    if up.Some? && Balloc(up.value).Some? {
      BallocIsFree(up.value);
      ZeroedNoZones(up.value.blocks[Balloc(up.value).value]);
    }
  }
}
