/** What link_page, unlink_page and a user store do to the invariant and to the
    contents every process reads. */
module PageMapping {
  import opened Words
  import opened Memory
  import opened CopyOnWrite

  /** Path `x` appears and ends in `g`; every other path is as before. */
  ghost predicate Gained(m: Mem, m': Mem, dirs: set<nat>, x: Slot, g: nat) {
    (forall s :: InUse(dirs, s) && s != x ==>
      Live(m', s) == Live(m, s) && (Live(m, s) ==> Entry(m', s) == Entry(m, s))) &&
    !Live(m, x) && Live(m', x) && Entry(m', x) == EntryInit(g)
  }

  lemma GainedKeeps(m: Mem, m': Mem, dirs: set<nat>, x: Slot, g: nat)
    requires Inv(m, dirs) && InUse(dirs, x) && Gained(m, m', dirs, x, g)
    requires KERNEL_FRAMES <= g < |m.count| && m.count[g] == 0
    requires m'.count == m.count[g := 1] && m'.free == m.free - 1 && |m'.frames| == |m.frames|
    requires NullUnmapped(m') && forall p :: p in dirs ==> KernelHalf(m', p)
    ensures Inv(m', dirs)
  {
    forall s | InUse(dirs, s) && Live(m, s) ensures Target(m, s) != g && s in Refs(m, Slots(dirs), Target(m, s)) {
      Referenced(m, dirs, s);
    }
    forall s, r ensures SamePlace(m', dirs, s, r) { assert SamePlace(m, dirs, s, r); }
    forall f: nat | f < |m'.count| ensures CountIsExact(m', dirs, f) {
      assert CountIsExact(m, dirs, f);
      forall q ensures q in Slots(dirs) <==> InUse(dirs, q) { InSlots(dirs, q); }
      assert Refs(m', Slots(dirs), f) == if f == g then {x} else Refs(m, Slots(dirs), f);
      if f == g {
        assert Refs(m, Slots(dirs), f) == {};
      }
    }
    FreeFramesUpdate(m.count, g, 1);
  }

  lemma NewTableKeeps(m: Mem, dirs: set<nat>, p: nat, d: nat)
    requires Inv(m, dirs) && p in dirs && KERNEL_DIRS <= d < USER_DIRS && m.free > 0
    requires !At(m, p, d).present && Fresh(m) < |m.count|
    ensures var m' := NewTable(m, p, d);
      Inv(m', dirs) && Machine(m', dirs) == Machine(m, dirs) &&
      Live(m', Slot(p, d, -1)) && Entry(m', Slot(p, d, -1)).write &&
      m'.free == m.free - 1 && (forall t :: !At(m', At(m', p, d).index, t).present)
  {
    var m', g, x := NewTable(m, p, d), Fresh(m), Slot(p, d, -1);
    FreshFrame(m, dirs);
    assert KernelHalf(m, p);
    forall f, i ensures At(m', f, i) ==
      if f == p && i == d then EntryInit(g) else if f == g then ZERO_WORD else At(m, f, i)
    {
    }
    forall s | InUse(dirs, s) && s != x
      ensures Live(m', s) == Live(m, s)
      ensures Live(m, s) ==> Entry(m', s) == Entry(m, s)
    {
      assert KernelHalf(m, s.dir);
      if s.t >= 0 && At(m, s.dir, s.d).present {
        assert InUse(dirs, Slot(s.dir, s.d, -1)) && Live(m, Slot(s.dir, s.d, -1));
      }
    }
    forall q | q in dirs ensures KernelHalf(m', q) { assert KernelHalf(m, q); }
    GainedKeeps(m, m', dirs, x, g);
    forall s | InUse(dirs, s) && s.t >= 0 && Live(m, s) ensures FrameAt(m', Target(m', s)) == FrameAt(m, Target(m, s)) {
      Referenced(m, dirs, s);
    }
    SameMachine(m, m', dirs);
  }

  /** One page of one process shows `fr`; every other page of every process is as before. */
  ghost predicate OnePageChanged(m: Mem, m': Mem, dirs: set<nat>, x: Slot, fr: Frame) {
    forall s :: InUse(dirs, s) && s.t >= 0 ==>
      if s == x then Live(m', s) && FrameAt(m', Target(m', s)) == fr
      else Live(m', s) == Live(m, s) && (Live(m, s) ==> FrameAt(m', Target(m', s)) == FrameAt(m, Target(m, s)))
  }

  lemma OnePageSpace(m: Mem, m': Mem, dirs: set<nat>, x: Slot, fr: Frame)
    requires InUse(dirs, x) && x.t >= 0 && OnePageChanged(m, m', dirs, x, fr)
    ensures SpaceOf(m', x.dir) == Put(SpaceOf(m, x.dir), Page(x.d, x.t), fr)
  {
    assert Page(x.d, x.t) in Pages();
    forall g | g in Pages()
      ensures g != Page(x.d, x.t) ==> Live(m', Slot(x.dir, g.d, g.t)) == Live(m, Slot(x.dir, g.d, g.t))
      ensures g != Page(x.d, x.t) && Live(m, Slot(x.dir, g.d, g.t)) ==>
        FrameAt(m', Target(m', Slot(x.dir, g.d, g.t))) == FrameAt(m, Target(m, Slot(x.dir, g.d, g.t)))
    {
      assert InUse(dirs, Slot(x.dir, g.d, g.t));
    }
  }

  lemma OtherSpace(m: Mem, m': Mem, dirs: set<nat>, x: Slot, fr: Frame, p: nat)
    requires InUse(dirs, x) && x.t >= 0 && OnePageChanged(m, m', dirs, x, fr) && p in dirs && p != x.dir
    ensures SpaceOf(m', p) == SpaceOf(m, p)
  {
    forall g | g in Pages()
      ensures Live(m', Slot(p, g.d, g.t)) == Live(m, Slot(p, g.d, g.t))
      ensures Live(m, Slot(p, g.d, g.t)) ==>
        FrameAt(m', Target(m', Slot(p, g.d, g.t))) == FrameAt(m, Target(m, Slot(p, g.d, g.t)))
    {
      assert InUse(dirs, Slot(p, g.d, g.t));
    }
  }

  lemma OnePageMachine(m: Mem, m': Mem, dirs: set<nat>, x: Slot, fr: Frame)
    requires InUse(dirs, x) && x.t >= 0 && OnePageChanged(m, m', dirs, x, fr)
    ensures Machine(m', dirs) == WithPage(Machine(m, dirs), x.dir, Page(x.d, x.t), fr)
  {
    forall p | p in dirs
      ensures SpaceOf(m', p) == if p == x.dir then Put(SpaceOf(m, p), Page(x.d, x.t), fr) else SpaceOf(m, p)
    {
      if p == x.dir {
        OnePageSpace(m, m', dirs, x, fr);
      } else {
        OtherSpace(m, m', dirs, x, fr, p);
      }
    }
  }

  /** The tail of link_page: table slot `t` is empty and the table belongs to `p` alone. */
  lemma NewPageKeeps(m: Mem, dirs: set<nat>, p: nat, d: nat, t: nat)
    requires Inv(m, dirs) && InUse(dirs, Slot(p, d, t)) && m.free > 0 && Fresh(m) < |m.count|
    requires Live(m, Slot(p, d, -1)) && Entry(m, Slot(p, d, -1)).write && !Live(m, Slot(p, d, t))
    requires At(m, p, d).index < |m.frames|
    ensures var m' := NewPage(m, At(m, p, d).index, t);
      Inv(m', dirs) && m'.free == m.free - 1 &&
      Live(m', Slot(p, d, -1)) && Entry(m', Slot(p, d, -1)).write &&
      Live(m', Slot(p, d, t)) && Entry(m', Slot(p, d, t)).write &&
      Machine(m', dirs) == WithPage(Machine(m, dirs), p, Page(d, t), FrameAt(m, Fresh(m)))
  {
    var own, x := Slot(p, d, -1), Slot(p, d, t);
    var table, g := At(m, p, d).index, Fresh(m);
    var m' := NewPage(m, table, t);
    FreshFrame(m, dirs);
    Referenced(m, dirs, own);
    forall f, i ensures At(m', f, i) == if f == table && i == t then EntryInit(g) else At(m, f, i) { }
    OwnTablePaths(m, m', dirs, x);
    GainedKeeps(m, m', dirs, x, g);
    OnePageMachine(m, m', dirs, x, FrameAt(m, g));
  }

  /** Only frame `f` differs and nobody uses it as a table: every path is as before. */
  lemma DataFramePaths(m: Mem, m': Mem, dirs: set<nat>, x: Slot)
    requires Inv(m, dirs) && InUse(dirs, x) && x.t >= 0 && Live(m, x)
    requires forall h, i :: h != Target(m, x) ==> At(m', h, i) == At(m, h, i)
    ensures forall s :: InUse(dirs, s) ==> Live(m', s) == Live(m, s)
    ensures forall s :: InUse(dirs, s) && Live(m, s) ==> Entry(m', s) == Entry(m, s)
    ensures forall p :: p in dirs ==> KernelHalf(m', p)
  {
    var f := Target(m, x);
    Referenced(m, dirs, x);
    forall p | p in dirs ensures KernelHalf(m', p) { assert KernelHalf(m, p); }
    forall s | InUse(dirs, s)
      ensures Live(m', s) == Live(m, s)
      ensures Live(m, s) ==> Entry(m', s) == Entry(m, s)
    {
      assert KernelHalf(m, s.dir);
      if s.t >= 0 && At(m, s.dir, s.d).present {
        var r := Slot(s.dir, s.d, -1);
        assert InUse(dirs, r) && Live(m, r);
        Referenced(m, dirs, r);
        assert SamePlace(m, dirs, r, x);
      }
    }
  }

  /** A store through a mapping whose two write bits are set reaches no other process. */
  lemma StoreKeeps(m: Mem, dirs: set<nat>, x: Slot, off: nat, w: Word)
    requires Inv(m, dirs) && InUse(dirs, x) && x.t >= 0 && Live(m, x) && Entry(m, x).write
    requires off < WORDS && Target(m, x) < |m.frames|
    ensures var m' := StoreWord(m, x, off, w);
      Inv(m', dirs) && SamePaths(m, m', dirs) &&
      Machine(m', dirs) == WithPage(Machine(m, dirs), x.dir, Page(x.d, x.t), FrameAt(m, Target(m, x))[off := w])
  {
    var f := Target(m, x);
    var m' := StoreWord(m, x, off, w);
    Referenced(m, dirs, x);
    forall h, i ensures At(m', h, i) == if h == f && i == off then w else At(m, h, i) { }
    DataFramePaths(m, m', dirs, x);
    SamePathsKeep(m, m', dirs);
    forall s | InUse(dirs, s) && Live(m, s) && Target(m, s) == f ensures s == x {
      Referenced(m, dirs, s);
      assert CountIsExact(m, dirs, f);
      OneRef(Refs(m, Slots(dirs), f), s, x);
    }
    OnePageMachine(m, m', dirs, x, FrameAt(m, f)[off := w]);
  }

  /** A word of a table that only `own` reaches concerns one slot of one process. */
  lemma OwnTablePaths(m: Mem, m': Mem, dirs: set<nat>, x: Slot)
    requires Inv(m, dirs) && InUse(dirs, x) && x.t >= 0
    requires Live(m, Slot(x.dir, x.d, -1)) && Entry(m, Slot(x.dir, x.d, -1)).write
    requires forall h, i :: h != At(m, x.dir, x.d).index || i != x.t ==> At(m', h, i) == At(m, h, i)
    ensures forall s :: InUse(dirs, s) && s != x ==> Live(m', s) == Live(m, s)
    ensures forall s :: InUse(dirs, s) && s != x && Live(m, s) ==> Entry(m', s) == Entry(m, s)
    ensures forall s :: InUse(dirs, s) && Live(m, s) && s.t >= 0 ==> Target(m, s) != At(m, x.dir, x.d).index
    ensures At(m', x.dir, x.d) == At(m, x.dir, x.d)
    ensures forall p :: p in dirs ==> KernelHalf(m', p)
  {
    var own, table := Slot(x.dir, x.d, -1), At(m, x.dir, x.d).index;
    assert InUse(dirs, own);
    Referenced(m, dirs, own);
    forall p | p in dirs ensures KernelHalf(m', p) { assert KernelHalf(m, p); }
    forall s | InUse(dirs, s) && Live(m, s) && s.t >= 0 ensures Target(m, s) != table {
      assert SamePlace(m, dirs, own, s);
    }
    forall s | InUse(dirs, s) && s != x
      ensures Live(m', s) == Live(m, s)
      ensures Live(m, s) ==> Entry(m', s) == Entry(m, s)
    {
      assert KernelHalf(m, s.dir);
      if s.t >= 0 && At(m, s.dir, s.d).present {
        var r := Slot(s.dir, s.d, -1);
        assert InUse(dirs, r) && Live(m, r);
        Referenced(m, dirs, r);
        if Target(m, r) == table {
          assert CountIsExact(m, dirs, table);
          OneRef(Refs(m, Slots(dirs), table), r, own);
        }
      }
    }
  }

  lemma UnmapPaths(m: Mem, dirs: set<nat>, x: Slot)
    requires Inv(m, dirs) && InUse(dirs, x) && x.t >= 0 && Live(m, x)
    requires Entry(m, Slot(x.dir, x.d, -1)).write && Slotted(m, x) && m.count[Target(m, x)] > 0
    ensures var m' := Unmap(m, x);
      !Live(m', x) && (forall p :: p in dirs ==> KernelHalf(m', p)) &&
      (forall s :: InUse(dirs, s) && s != x ==>
        Live(m', s) == Live(m, s) && (Live(m, s) ==> Entry(m', s) == Entry(m, s))) &&
      (forall s :: InUse(dirs, s) && s != x && s.t >= 0 && Live(m, s) ==>
        FrameAt(m', Target(m', s)) == FrameAt(m, Target(m, s)))
  {
    var own, table := Slot(x.dir, x.d, -1), At(m, x.dir, x.d).index;
    var m' := Unmap(m, x);
    assert InUse(dirs, own) && Live(m, own);
    forall h, i ensures At(m', h, i) == if h == table && i == x.t then Entry(m, x).(present := false) else At(m, h, i) { }
    OwnTablePaths(m, m', dirs, x);
    assert forall h :: h != table ==> FrameAt(m', h) == FrameAt(m, h);
  }

  /** The tail of unlink_page, once the table belongs to the process alone. */
  lemma UnmapKeeps(m: Mem, dirs: set<nat>, x: Slot)
    requires Inv(m, dirs) && InUse(dirs, x) && x.t >= 0 && Live(m, x)
    requires Entry(m, Slot(x.dir, x.d, -1)).write && Slotted(m, x) && m.count[Target(m, x)] > 0
    ensures var m' := Unmap(m, x);
      Inv(m', dirs) && !Live(m', x) &&
      Machine(m', dirs) == WithoutPage(Machine(m, dirs), x.dir, Page(x.d, x.t))
  {
    var m' := Unmap(m, x);
    Referenced(m, dirs, x);
    UnmapPaths(m, dirs, x);
    UnmapCounts(m, m', dirs, x);
    assert forall s :: InUse(dirs, s) && Live(m', s) ==> Live(m, s) && Entry(m', s) == Entry(m, s);
    UnmapWriteBits(m, m', dirs, x);
    forall s, r ensures SamePlace(m', dirs, s, r) { assert SamePlace(m, dirs, s, r); }
    forall p | p in dirs
      ensures SpaceOf(m', p) == if p == x.dir then SpaceOf(m, p) - {Page(x.d, x.t)} else SpaceOf(m, p)
    {
      UnmapSpace(m, m', dirs, x, p);
    }
    UnmapMachine(m, m', dirs, x);
  }

  lemma UnmapSpace(m: Mem, m': Mem, dirs: set<nat>, x: Slot, p: nat)
    requires InUse(dirs, x) && x.t >= 0 && !Live(m', x) && p in dirs
    requires forall s :: InUse(dirs, s) && s != x && s.t >= 0 ==>
      Live(m', s) == Live(m, s) && (Live(m, s) ==> FrameAt(m', Target(m', s)) == FrameAt(m, Target(m, s)))
    ensures SpaceOf(m', p) == if p == x.dir then SpaceOf(m, p) - {Page(x.d, x.t)} else SpaceOf(m, p)
  {
    var gone := if p == x.dir then {Page(x.d, x.t)} else {};
    forall g | g in Pages()
      ensures Live(m', Slot(p, g.d, g.t)) <==> Live(m, Slot(p, g.d, g.t)) && g !in gone
      ensures Live(m', Slot(p, g.d, g.t)) ==>
        FrameAt(m', Target(m', Slot(p, g.d, g.t))) == FrameAt(m, Target(m, Slot(p, g.d, g.t)))
    {
      assert InUse(dirs, Slot(p, g.d, g.t));
      assert Slot(p, g.d, g.t) == x <==> g in gone;
    }
    assert SpaceOf(m', p) == SpaceOf(m, p) - gone;
  }

  lemma UnmapMachine(m: Mem, m': Mem, dirs: set<nat>, x: Slot)
    requires InUse(dirs, x)
    requires forall p :: p in dirs ==>
      SpaceOf(m', p) == if p == x.dir then SpaceOf(m, p) - {Page(x.d, x.t)} else SpaceOf(m, p)
    ensures Machine(m', dirs) == WithoutPage(Machine(m, dirs), x.dir, Page(x.d, x.t))
  {
  }

  /** Dropping path `x` lowers one count, and no write bit depends on it. */
  lemma UnmapWriteBits(m: Mem, m': Mem, dirs: set<nat>, x: Slot)
    requires Inv(m, dirs) && InUse(dirs, x) && Live(m, x) && !Live(m', x) && InBounds(m', dirs)
    requires m.count[Target(m, x)] > 0
    requires forall s :: InUse(dirs, s) && s != x ==>
      Live(m', s) == Live(m, s) && (Live(m, s) ==> Entry(m', s) == Entry(m, s))
    requires m'.count == m.count[Target(m, x) := m.count[Target(m, x)] - 1]
    ensures WriteExclusive(m', dirs)
  {
    forall s | InUse(dirs, s) && Live(m', s) && Entry(m', s).write ensures m'.count[Target(m', s)] == 1 {
      if Target(m, s) == Target(m, x) {
        Referenced(m, dirs, s);
        Referenced(m, dirs, x);
        assert CountIsExact(m, dirs, Target(m, x));
        OneRef(Refs(m, Slots(dirs), Target(m, x)), s, x);
        assert false;
      }
    }
  }

  lemma UnmapCounts(m: Mem, m': Mem, dirs: set<nat>, x: Slot)
    requires Inv(m, dirs) && InUse(dirs, x) && Live(m, x) && !Live(m', x)
    requires KERNEL_FRAMES <= Target(m, x) < |m.count| && m.count[Target(m, x)] > 0
    requires forall s :: InUse(dirs, s) && s != x ==>
      Live(m', s) == Live(m, s) && (Live(m, s) ==> Entry(m', s) == Entry(m, s))
    requires m'.count == m.count[Target(m, x) := m.count[Target(m, x)] - 1]
    requires m'.free == m.free + if m.count[Target(m, x)] == 1 then 1 else 0
    ensures Counted(m', dirs) && m'.free == FreeFrames(m'.count)
  {
    var f := Target(m, x);
    forall h: nat | h < |m'.count| ensures CountIsExact(m', dirs, h) {
      assert CountIsExact(m, dirs, h);
      forall q ensures q in Slots(dirs) <==> InUse(dirs, q) { InSlots(dirs, q); }
      assert Refs(m', Slots(dirs), h) == Refs(m, Slots(dirs), h) - {x};
      if h == f {
        assert x in Refs(m, Slots(dirs), h);
      } else {
        assert x !in Refs(m, Slots(dirs), h);
      }
    }
    FreeFramesUpdate(m.count, f, m.count[f] - 1);
  }
}
