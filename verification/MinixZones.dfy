/** Handing out a zone (minix_balloc, minix_bmap): what it does to the ownership of zones. */
module MinixZones {
  import opened Words
  import opened Minix
  import Bitmap

  /** array[index] = v, where the array is the inode's or an indirect zone. */
  function PutSlot(fs: Fs, s: Slot, v: u16): Fs {
    if s.Top? then
      if s.k < |fs.inodes| && s.i < |fs.inodes[s.k].zone| then
        fs.(inodes := fs.inodes[s.k := fs.inodes[s.k].(zone := fs.inodes[s.k].zone[s.i := v])])
      else fs
    else
      var z := Val(fs, Parent(s));
      if z < |fs.blocks| && IndexIn(s) < INDEXES then
        fs.(blocks := fs.blocks[z := PutWord(fs.blocks[z], IndexIn(s), v)])
      else fs
  }

  predicate Below(s: Slot, t: Slot) {
    !t.Top? && (Parent(t) == s || (!Parent(t).Top? && Parent(Parent(t)) == s))
  }

  /** An empty slot that can be filled with the free zone v. */
  ghost predicate Fillable(fs: Fs, s: Slot, v: u16) {
    Inv(fs) && InTable(fs, s) && Val(fs, s) == 0 && (!s.Top? ==> Val(fs, Parent(s)) != 0) && IsData(fs, v) && !Used(fs, v)
  }

  function Fill(fs: Fs, s: Slot, v: u16): Fs
    requires Fillable(fs, s, v)
  {
    PutSlot(Mark(fs, v, true), s, v)
  }

  lemma ParentInTable(fs: Fs, s: Slot)
    requires InTable(fs, s) && !s.Top?
    ensures InTable(fs, Parent(s)) && Val(fs, s) == Via(fs, Val(fs, Parent(s)), IndexIn(s))
  {
  }

  /** The entries of a zone named by some slot p, after s is filled: only entry IndexIn(s) of
      the zone of Parent(s) can have changed. */
  lemma EntriesKept(fs: Fs, s: Slot, v: u16, p: Slot, j: nat)
    requires Fillable(fs, s, v) && InTable(fs, p) && Val(fs, p) != 0
    requires s.Top? || p != Parent(s) || j != IndexIn(s)
    ensures At(Fill(fs, s, v), Val(fs, p), j) == At(fs, Val(fs, p), j)
  {
    if !s.Top? && j < INDEXES {
      ParentInTable(fs, s);
      assert Same(fs, p, Parent(s));
      PutWordGet(fs.blocks[Val(fs, Parent(s))], IndexIn(s), v, j);
    }
  }

  lemma FreshEntries(fs: Fs, s: Slot, v: u16, j: nat)
    requires Fillable(fs, s, v)
    ensures At(Fill(fs, s, v), v, j) == At(fs, v, j)
  {
    if !s.Top? {
      ParentInTable(fs, s);
      assert Used(fs, Val(fs, Parent(s)));
    }
  }

  /** Filling a slot changes it, and what hangs below it; every other slot keeps its value. */
  lemma FillTop(fs: Fs, s: Slot, v: u16, t: Slot)
    requires Fillable(fs, s, v) && s.Top? && InTable(fs, t)
    ensures t != s && !Below(s, t) ==> Val(Fill(fs, s, v), t) == Val(fs, t)
    ensures Val(Fill(fs, s, v), s) == v
  {
  }

  lemma FillLower(fs: Fs, s: Slot, v: u16, t: Slot)
    requires Fillable(fs, s, v) && !s.Top? && InTable(fs, t)
    ensures t != s && !Below(s, t) ==> Val(Fill(fs, s, v), t) == Val(fs, t)
    ensures Val(Fill(fs, s, v), s) == v
  {
    var fs' := Fill(fs, s, v);
    ParentInTable(fs, s);
    PutWordGet(fs.blocks[Val(fs, Parent(s))], IndexIn(s), v, IndexIn(s));
    KeptByFill(fs, s, v, Parent(s));
    if t != s && !Below(s, t) {
      KeptByFill(fs, s, v, t);
    }
  }

  lemma {:induction false} KeptByFill(fs: Fs, s: Slot, v: u16, t: Slot)
    requires Fillable(fs, s, v) && !s.Top? && InTable(fs, t) && t != s && !Below(s, t)
    ensures Val(Fill(fs, s, v), t) == Val(fs, t)
    decreases if t.Top? then 0 else if t.Mid? then 1 else 2
  {
    if !t.Top? {
      var p := Parent(t);
      ParentInTable(fs, t);
      KeptByFill(fs, s, v, p);
      if Val(fs, p) != 0 {
        EntriesKept(fs, s, v, p, IndexIn(t));
      }
    }
  }

  lemma FillKept(fs: Fs, s: Slot, v: u16, t: Slot)
    requires Fillable(fs, s, v) && InTable(fs, t)
    ensures Val(Fill(fs, s, v), t) == if t == s then v else if Below(s, t) then Val(Fill(fs, s, v), t) else Val(fs, t)
    ensures Below(s, t) ==> Val(fs, t) == 0
    ensures InTable(Fill(fs, s, v), t)
  {
    if s.Top? { FillTop(fs, s, v, t); } else { FillLower(fs, s, v, t); }
  }

  lemma FillChild(fs: Fs, s: Slot, v: u16, j: nat)
    requires Fillable(fs, s, v) && Indirect(s) && j < INDEXES
    ensures Val(Fill(fs, s, v), Child(s, j)) == At(fs, v, j) && InTable(fs, Child(s, j))
  {
    FillKept(fs, s, v, s);
    FreshEntries(fs, s, v, j);
  }

  /** With no zone numbers in the new zone, nothing hangs below the slot. */
  lemma FillBelow(fs: Fs, s: Slot, v: u16, t: Slot)
    requires Fillable(fs, s, v) && InTable(fs, t) && Below(s, t) && (Indirect(s) ==> NoZones(fs.blocks[v]))
    ensures Val(Fill(fs, s, v), t) == 0
  {
    if Parent(t) == s {
      FillChild(fs, s, v, IndexIn(t));
    } else {
      FillChild(fs, s, v, IndexIn(Parent(t)));
    }
  }

  lemma FillTable(fs: Fs, s: Slot, v: u16, t: Slot)
    requires Fillable(fs, s, v)
    ensures InTable(Fill(fs, s, v), t) == InTable(fs, t)
  {
  }

  lemma FillUsed(fs: Fs, s: Slot, v: u16, z: nat)
    requires Fillable(fs, s, v)
    ensures Dims(Fill(fs, s, v)) && IsData(Fill(fs, s, v), z) == IsData(fs, z) && Used(Fill(fs, s, v), z) == (z == v || Used(fs, z))
  {
  }

  lemma FillKeepsUnique(fs: Fs, s: Slot, v: u16)
    requires Fillable(fs, s, v) && (Indirect(s) ==> NoZones(fs.blocks[v]))
    ensures Unique(Fill(fs, s, v))
  {
    hide Fill, Below, Val;
    var fs' := Fill(fs, s, v);
    forall t, u ensures Same(fs', t, u) {
      FillTable(fs, s, v, t);
      FillTable(fs, s, v, u);
      if InTable(fs', t) && InTable(fs', u) && Val(fs', t) == Val(fs', u) != 0 {
        FillKept(fs, s, v, t);
        FillKept(fs, s, v, u);
        if Below(s, t) { FillBelow(fs, s, v, t); }
        if Below(s, u) { FillBelow(fs, s, v, u); }
        assert Same(fs, t, u);
      }
    }
  }

  lemma FillKeepsReached(fs: Fs, s: Slot, v: u16)
    requires Fillable(fs, s, v)
    ensures Dims(Fill(fs, s, v)) && AllReached(Fill(fs, s, v))
  {
    hide Fill, Below, Val;
    var fs' := Fill(fs, s, v);
    FillUsed(fs, s, v, 0);
    forall z: nat | IsData(fs', z) && Used(fs', z) ensures Reached(fs', z) {
      FillUsed(fs, s, v, z);
      if z == v {
        FillKept(fs, s, v, s);
        assert InTable(fs', s);
      } else {
        var t :| InTable(fs, t) && Val(fs, t) == z;
        FillKept(fs, s, v, t);
        assert InTable(fs', t);
      }
    }
  }

  lemma FillKeepsBounds(fs: Fs, s: Slot, v: u16)
    requires Fillable(fs, s, v) && (Indirect(s) ==> NoZones(fs.blocks[v]))
    ensures Dims(Fill(fs, s, v)) && InBounds(Fill(fs, s, v))
  {
    hide Fill, Below, Val;
    var fs' := Fill(fs, s, v);
    FillUsed(fs, s, v, 0);
    forall t | InTable(fs', t) && Val(fs', t) != 0 ensures IsData(fs', Val(fs', t)) && Used(fs', Val(fs', t)) {
      FillTable(fs, s, v, t);
      FillUsed(fs, s, v, Val(fs', t));
      FillKept(fs, s, v, t);
      if Below(s, t) { FillBelow(fs, s, v, t); }
    }
  }

  /** A zone number found in a new indirect zone is one too many: it is out of bounds, or of a
      free zone, or of one that has its slot already. */
  lemma StaleBreaks(fs: Fs, s: Slot, v: u16, j: nat)
    requires Fillable(fs, s, v) && Indirect(s) && j < INDEXES && At(fs, v, j) != 0
    ensures !Inv(Fill(fs, s, v))
  {
    hide Fill, Val;
    var fs' := Fill(fs, s, v);
    var c := Child(s, j);
    var w := At(fs, v, j);
    FillChild(fs, s, v, j);
    FillKept(fs, s, v, s);
    FillUsed(fs, s, v, w);
    if w == v {
      assert !Same(fs', s, c);
    } else if IsData(fs, w) && Used(fs, w) {
      var t :| InTable(fs, t) && Val(fs, t) == w;
      FillKept(fs, s, v, t);
      assert !Same(fs', t, c);
    } else {
      assert !InBounds(fs');
    }
  }

  /** Handing out a zone for a slot keeps zone ownership exactly when, for an indirect zone,
      the zone happens to read as "no zones": minix_balloc does not clear it. */
  lemma FillKeeps(fs: Fs, s: Slot, v: u16)
    requires Fillable(fs, s, v)
    ensures Inv(Fill(fs, s, v)) <==> (Indirect(s) ==> NoZones(fs.blocks[v]))
  {
    if Indirect(s) && !NoZones(fs.blocks[v]) {
      var j: nat :| j < INDEXES && Word(fs.blocks[v], j) != 0;
      StaleBreaks(fs, s, v, j);
    } else {
      FillKeepsBounds(fs, s, v);
      FillKeepsUnique(fs, s, v);
      FillKeepsReached(fs, s, v);
    }
  }

  /** A disk with one empty file whose zones still hold old data. */
  function UsedDisk(old_: Block): Fs {
    Fs(10, 20, [true] + seq(BLOCK_BITS - 1, _ => false), seq(20, _ => old_), [Inode(File, 0, [0, 0, 0, 0, 0, 0, 0, 0, 0])])
  }

  lemma UsedDiskOk(old_: Block)
    ensures Inv(UsedDisk(old_)) && forall z: nat :: IsData(UsedDisk(old_), z) ==> !Used(UsedDisk(old_), z)
  {
    var fs := UsedDisk(old_);
    forall s | InTable(fs, s) ensures Val(fs, s) == 0 {
    }
    forall s, t ensures Same(fs, s, t) {
    }
  }

  /** If the first free zone still holds 11, the first write past block 6 makes the file claim
      zone 11, which the zone map calls free. */
  lemma StaleZone(old_: Block)
    requires Word(old_, 0) == 11
    ensures Fillable(UsedDisk(old_), Top(0, 7), 10) && !Inv(Fill(UsedDisk(old_), Top(0, 7), 10))
    ensures Val(Fill(UsedDisk(old_), Top(0, 7), 10), Mid(0, 7, 0)) == 11
  {
    var fs := UsedDisk(old_);
    UsedDiskOk(old_);
    FillKeeps(fs, Top(0, 7), 10);
    FillChild(fs, Top(0, 7), 10, 0);
  }
}
