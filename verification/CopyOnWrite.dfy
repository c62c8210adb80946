/** What copy_on_write keeps: the invariant of the memory manager and everything any
    process reads. */
module CopyOnWrite {
  import opened Words
  import opened Memory

  lemma InSlots(dirs: set<nat>, s: Slot)
    ensures s in Slots(dirs) <==> InUse(dirs, s)
  {
  }

  lemma OneRef(S: set<Slot>, x: Slot, y: Slot)
    requires x in S && y in S && |S| == 1
    ensures x == y
  {
    var T := S - {x};
    assert y in T <==> y != x;
    assert |S| == |T| + 1;
  }

  /** A frame reached by some path has a positive count, and so is no free frame. */
  lemma Referenced(m: Mem, dirs: set<nat>, s: Slot)
    requires Inv(m, dirs) && InUse(dirs, s) && Live(m, s)
    ensures KERNEL_FRAMES <= Target(m, s) < |m.count| && m.count[Target(m, s)] > 0
    ensures s in Refs(m, Slots(dirs), Target(m, s))
  {
    InSlots(dirs, s);
    assert CountIsExact(m, dirs, Target(m, s));
    assert s in Refs(m, Slots(dirs), Target(m, s));
  }

  lemma FreshFrame(m: Mem, dirs: set<nat>)
    requires Inv(m, dirs) && m.free > 0
    ensures KERNEL_FRAMES <= Fresh(m) < |m.count| && m.count[Fresh(m)] == 0
    ensures forall s :: InUse(dirs, s) && Live(m, s) ==> Target(m, s) != Fresh(m)
  {
    var f := SomeFree(m.count, |m.count|);
    var g := Fresh(m);
    assert g < |m.count|;
    assert CountIsExact(m, dirs, g);
    forall s | InUse(dirs, s) && Live(m, s) ensures Target(m, s) != g {
      Referenced(m, dirs, s);
    }
  }

  lemma {:induction false} FreeBelowUpdate(count: seq<u8>, f: nat, v: u8, n: nat)
    requires f < |count| && n <= |count|
    ensures FreeBelow(count[f := v], n) == FreeBelow(count, n) +
      if f >= n then 0 else (if v == 0 then 1 else 0) - if count[f] == 0 then 1 else 0
  {
    if n > 0 {
      FreeBelowUpdate(count, f, v, n - 1);
    }
  }

  lemma FreeFramesUpdate(count: seq<u8>, f: nat, v: u8)
    requires f < |count|
    ensures FreeFrames(count[f := v]) == FreeFrames(count) - (if count[f] == 0 then 1 else 0) + if v == 0 then 1 else 0
  {
    FreeBelowUpdate(count, f, v, |count|);
  }

  /** A positive count of free frames has a free frame behind it. */
  lemma {:induction false} SomeFree(count: seq<u8>, n: nat) returns (f: nat)
    requires n <= |count| && FreeBelow(count, n) > 0
    ensures f < n && count[f] == 0
  {
    if count[n - 1] == 0 {
      f := n - 1;
    } else {
      f := SomeFree(count, n - 1);
    }
  }

  lemma {:induction false} FreeBelowEqual(count: seq<u8>, count': seq<u8>, n: nat)
    requires n <= |count| == |count'| && forall f: nat :: f < |count| ==> (count[f] == 0 <==> count'[f] == 0)
    ensures FreeBelow(count, n) == FreeBelow(count', n)
  {
    if n > 0 {
      FreeBelowEqual(count, count', n - 1);
    }
  }

  /** `m'` differs from `m`, as far as the paths of `dirs` go, only in that path `x`
      now ends in `g`. */
  ghost predicate Moved(m: Mem, m': Mem, dirs: set<nat>, x: Slot, g: nat) {
    forall s :: InUse(dirs, s) ==>
      Live(m', s) == Live(m, s) && (Live(m, s) ==> Target(m', s) == if s == x then g else Target(m, s))
  }

  lemma MovedRefs(m: Mem, m': Mem, dirs: set<nat>, x: Slot, g: nat, f: nat)
    requires Inv(m, dirs) && InUse(dirs, x) && Live(m, x) && Moved(m, m', dirs, x, g)
    requires forall s :: InUse(dirs, s) && Live(m, s) ==> Target(m, s) != g
    ensures Refs(m', Slots(dirs), f) ==
      if f == g then {x} else if f == Target(m, x) then Refs(m, Slots(dirs), f) - {x} else Refs(m, Slots(dirs), f)
  {
    forall s ensures s in Slots(dirs) <==> InUse(dirs, s) { InSlots(dirs, s); }
  }

  /** Two snapshots in which every process has the same paths. */
  ghost predicate SamePaths(m: Mem, m': Mem, dirs: set<nat>) {
    forall s :: InUse(dirs, s) ==> Live(m', s) == Live(m, s) && (Live(m, s) ==> Target(m', s) == Target(m, s))
  }

  lemma SamePathsKeep(m: Mem, m': Mem, dirs: set<nat>)
    requires Inv(m, dirs) && Dimensions(m') && SamePaths(m, m', dirs)
    requires m'.count == m.count && m'.free == m.free
    ensures InBounds(m', dirs) && Counted(m', dirs) && OnePlace(m', dirs) && m'.free == FreeFrames(m'.count)
  {
    forall f: nat | f < |m'.count| ensures CountIsExact(m', dirs, f) {
      assert CountIsExact(m, dirs, f);
      forall q ensures q in Slots(dirs) <==> InUse(dirs, q) { InSlots(dirs, q); }
      assert Refs(m', Slots(dirs), f) == Refs(m, Slots(dirs), f);
    }
    forall s, r ensures SamePlace(m', dirs, s, r) { assert SamePlace(m, dirs, s, r); }
  }

  /** Processes read the same whenever each mapped page shows the same frame contents. */
  lemma SameMachine(m: Mem, m': Mem, dirs: set<nat>)
    requires forall s :: InUse(dirs, s) && s.t >= 0 ==> Live(m', s) == Live(m, s)
    requires forall s :: InUse(dirs, s) && Live(m, s) && s.t >= 0 ==>
      FrameAt(m', Target(m', s)) == FrameAt(m, Target(m, s))
    ensures Machine(m', dirs) == Machine(m, dirs)
  {
    forall p | p in dirs ensures SpaceOf(m', p) == SpaceOf(m, p) {
      forall g | g in Pages()
        ensures Live(m', Slot(p, g.d, g.t)) == Live(m, Slot(p, g.d, g.t))
        ensures Live(m, Slot(p, g.d, g.t)) ==>
          FrameAt(m', Target(m', Slot(p, g.d, g.t))) == FrameAt(m, Target(m, Slot(p, g.d, g.t)))
      {
        assert InUse(dirs, Slot(p, g.d, g.t));
      }
    }
  }

  /** The frame that holds the entry of `s` is no frame of data. */
  lemma EntryFrameIsNoData(m: Mem, dirs: set<nat>, s: Slot, r: Slot)
    requires Inv(m, dirs) && InUse(dirs, s) && Live(m, s) && InUse(dirs, r) && Live(m, r) && r.t >= 0
    ensures Target(m, r) != EntryFrame(m, s)
  {
    if s.t >= 0 {
      var table := Slot(s.dir, s.d, -1);
      assert InUse(dirs, table) && Live(m, table) && Target(m, table) == EntryFrame(m, s);
      assert SamePlace(m, dirs, table, r);
    }
  }

  lemma SlotIsSlotted(m: Mem, dirs: set<nat>, s: Slot)
    requires Inv(m, dirs) && InUse(dirs, s) && Live(m, s)
    ensures Slotted(m, s)
  {
    if s.t >= 0 {
      var table := Slot(s.dir, s.d, -1);
      assert InUse(dirs, table) && Live(m, table);
    }
  }

  lemma SetWordAt(m: Mem, f: nat, k: nat, w: Word, f': int, k': int)
    requires f < |m.frames| && k < WORDS
    ensures At(SetWord(m, f, k, w), f', k') == if f' == f && k' == k then w else At(m, f', k')
  {
  }

  /** copy_on_write on an entry whose frame has a single path: only the write bit changes. */
  lemma CowAlone(m: Mem, dirs: set<nat>, s: Slot)
    requires Inv(m, dirs) && InUse(dirs, s) && Live(m, s) && Slotted(m, s)
    requires !Entry(m, s).write && m.count[Target(m, s)] == 1
    ensures Inv(Cow(m, s), dirs) && Machine(Cow(m, s), dirs) == Machine(m, dirs)
    ensures Entry(Cow(m, s), s).write && SamePaths(m, Cow(m, s), dirs)
  {
    var m' := Cow(m, s);
    var fr, k := EntryFrame(m, s), EntryIndex(s);
    var w := Entry(m, s).(write := true);
    forall f, i ensures At(m', f, i) == if f == fr && i == k then w else At(m, f, i) {
      SetWordAt(m, fr, k, w, f, i);
    }
    assert SamePaths(m, m', dirs);
    SamePathsKeep(m, m', dirs);
    forall r | InUse(dirs, r) && Live(m, r) && r.t >= 0 ensures FrameAt(m', Target(m', r)) == FrameAt(m, Target(m, r)) {
      EntryFrameIsNoData(m, dirs, s, r);
    }
    SameMachine(m, m', dirs);
  }

  /** What Cow does to single words when it has to copy. */
  lemma CowCopyWords(m: Mem, dirs: set<nat>, s: Slot, f: int, i: int)
    requires Inv(m, dirs) && InUse(dirs, s) && Live(m, s) && Slotted(m, s) && m.free > 0
    requires Fresh(m) < |m.count|
    requires !Entry(m, s).write && m.count[Target(m, s)] > 1
    requires (f, i) != (KERNEL_TABLE, 0)
    ensures At(Cow(m, s), f, i) ==
      if f == EntryFrame(m, s) && i == EntryIndex(s) then Entry(m, s).(index := Fresh(m), write := true)
      else if f == Fresh(m) then At(m, Target(m, s), i)
      else At(m, f, i)
  {
    FreshFrame(m, dirs);
    Referenced(m, dirs, s);
    if s.t >= 0 {
      var table := Slot(s.dir, s.d, -1);
      assert InUse(dirs, table) && Live(m, table);
      Referenced(m, dirs, table);
    }
  }

  lemma CowCopyMoves(m: Mem, dirs: set<nat>, s: Slot)
    requires Inv(m, dirs) && InUse(dirs, s) && Live(m, s) && Slotted(m, s) && m.free > 0
    requires Fresh(m) < |m.count|
    requires s.t >= 0 ==> m.count[At(m, s.dir, s.d).index] == 1
    requires !Entry(m, s).write && m.count[Target(m, s)] > 1
    ensures Moved(m, Cow(m, s), dirs, s, Fresh(m))
    ensures forall r :: InUse(dirs, r) && Live(m, r) && r != s ==> Entry(Cow(m, s), r) == Entry(m, r)
    ensures Entry(Cow(m, s), s) == Entry(m, s).(index := Fresh(m), write := true)
  {
    var m', g := Cow(m, s), Fresh(m);
    FreshFrame(m, dirs);
    if s.t >= 0 {
      assert InUse(dirs, Slot(s.dir, s.d, -1)) && Live(m, Slot(s.dir, s.d, -1));
    }
    forall r | InUse(dirs, r)
      ensures Live(m', r) == Live(m, r)
      ensures Live(m, r) ==> Target(m', r) == if r == s then g else Target(m, r)
      ensures Live(m, r) && r != s ==> Entry(m', r) == Entry(m, r)
      ensures r == s ==> Entry(m', s) == Entry(m, s).(index := g, write := true)
    {
      assert KernelHalf(m, r.dir) && KernelHalf(m, s.dir);
      CowCopyWords(m, dirs, s, r.dir, r.d);
      if r.t >= 0 && At(m, r.dir, r.d).present {
        CowCopyTableSlot(m, dirs, s, r);
      }
    }
  }

  /** The table slots seen by path `r` after the entry of `s` was copied. */
  lemma CowCopyTableSlot(m: Mem, dirs: set<nat>, s: Slot, r: Slot)
    requires Inv(m, dirs) && InUse(dirs, s) && Live(m, s) && Slotted(m, s) && m.free > 0
    requires Fresh(m) < |m.count|
    requires s.t >= 0 ==> m.count[At(m, s.dir, s.d).index] == 1
    requires !Entry(m, s).write && m.count[Target(m, s)] > 1
    requires InUse(dirs, r) && r.t >= 0 && At(m, r.dir, r.d).present
    ensures At(Cow(m, s), r.dir, r.d).present
    ensures Entry(Cow(m, s), r) == if r == s then Entry(m, s).(index := Fresh(m), write := true) else Entry(m, r)
  {
    FreshFrame(m, dirs);
    var table := Slot(r.dir, r.d, -1);
    assert InUse(dirs, table) && Live(m, table) && KernelHalf(m, r.dir) && KernelHalf(m, s.dir);
    CowCopyWords(m, dirs, s, r.dir, r.d);
    Referenced(m, dirs, table);
    CowCopyWords(m, dirs, s, Target(m, table), r.t);
    if s.t >= 0 {
      if Target(m, table) == EntryFrame(m, s) {
        var own := Slot(s.dir, s.d, -1);
        assert InUse(dirs, own) && Live(m, own);
        Referenced(m, dirs, own);
        assert CountIsExact(m, dirs, Target(m, table));
        OneRef(Refs(m, Slots(dirs), Target(m, table)), table, own);
      }
    } else if r.dir == s.dir && r.d == s.d {
      CowCopyWords(m, dirs, s, Fresh(m), r.t);
    }
  }

  /** Moving one path from a shared frame to a free one keeps the counts exact. */
  lemma MovedCounts(m: Mem, m': Mem, dirs: set<nat>, s: Slot, g: nat)
    requires Inv(m, dirs) && InUse(dirs, s) && Live(m, s) && Moved(m, m', dirs, s, g)
    requires KERNEL_FRAMES <= g < |m.count| && m.count[g] == 0 && m.count[Target(m, s)] > 1
    requires forall r :: InUse(dirs, r) && Live(m, r) ==> Target(m, r) != g
    requires m'.count == m.count[g := 1][Target(m, s) := m.count[Target(m, s)] - 1]
    requires m'.free == m.free - 1
    ensures Counted(m', dirs) && m'.free == FreeFrames(m'.count)
  {
    var h := Target(m, s);
    Referenced(m, dirs, s);
    forall f: nat | f < |m'.count| ensures CountIsExact(m', dirs, f) {
      assert CountIsExact(m, dirs, f);
      MovedRefs(m, m', dirs, s, g, f);
    }
    FreeFramesUpdate(m.count, g, 1);
    FreeFramesUpdate(m.count[g := 1], h, m.count[h] - 1);
  }

  /** The page behind every data path holds what it held before the copy. */
  lemma CowCopyContents(m: Mem, dirs: set<nat>, s: Slot, r: Slot)
    requires Inv(m, dirs) && InUse(dirs, s) && Live(m, s) && Slotted(m, s) && m.free > 0
    requires Fresh(m) < |m.count|
    requires !Entry(m, s).write && m.count[Target(m, s)] > 1
    requires Moved(m, Cow(m, s), dirs, s, Fresh(m))
    requires InUse(dirs, r) && Live(m, r) && r.t >= 0
    ensures FrameAt(Cow(m, s), Target(Cow(m, s), r)) == FrameAt(m, Target(m, r))
  {
    FreshFrame(m, dirs);
    Referenced(m, dirs, s);
    Referenced(m, dirs, r);
    EntryFrameIsNoData(m, dirs, s, r);
    EntryFrameNotFresh(m, dirs, s);
  }

  lemma EntryFrameNotFresh(m: Mem, dirs: set<nat>, s: Slot)
    requires Inv(m, dirs) && InUse(dirs, s) && Live(m, s) && m.free > 0
    ensures EntryFrame(m, s) != Fresh(m)
  {
    FreshFrame(m, dirs);
    if s.t >= 0 {
      var table := Slot(s.dir, s.d, -1);
      assert InUse(dirs, table) && Live(m, table);
    }
  }

  lemma CowCopyKernelHalf(m: Mem, dirs: set<nat>, s: Slot, p: nat)
    requires Inv(m, dirs) && InUse(dirs, s) && Live(m, s) && Slotted(m, s) && m.free > 0
    requires Fresh(m) < |m.count| && p in dirs
    requires !Entry(m, s).write && m.count[Target(m, s)] > 1
    ensures KernelHalf(Cow(m, s), p)
  {
    assert KernelHalf(m, p);
    FreshFrame(m, dirs);
    CowCopyWords(m, dirs, s, p, SELF);
    CowCopyWords(m, dirs, s, p, 0);
    if s.t >= 0 {
      var table := Slot(s.dir, s.d, -1);
      assert InUse(dirs, table) && Live(m, table);
    }
  }

  lemma CowCopyWriteBits(m: Mem, dirs: set<nat>, s: Slot)
    requires Inv(m, dirs) && InUse(dirs, s) && Live(m, s) && Slotted(m, s) && m.free > 0
    requires Fresh(m) < |m.count|
    requires s.t >= 0 ==> m.count[At(m, s.dir, s.d).index] == 1
    requires !Entry(m, s).write && m.count[Target(m, s)] > 1
    requires Moved(m, Cow(m, s), dirs, s, Fresh(m)) && InBounds(Cow(m, s), dirs)
    ensures WriteExclusive(Cow(m, s), dirs) && OpenToUsers(Cow(m, s), dirs) && Entry(Cow(m, s), s).write
  {
    var m', g, h := Cow(m, s), Fresh(m), Target(m, s);
    FreshFrame(m, dirs);
    Referenced(m, dirs, s);
    CowCopyMoves(m, dirs, s);
    forall r | InUse(dirs, r) && Live(m', r)
      ensures Entry(m', r).write ==> m'.count[Target(m', r)] == 1
      ensures Entry(m', r).user && !Entry(m', r).shared && !Entry(m', r).readonly
    {
      if r != s {
        assert Entry(m', r) == Entry(m, r);
        assert Target(m, r) != g;
      }
    }
  }

  /** copy_on_write on an entry whose frame others reach too: the contents move to a
      fresh frame that only this path reaches. */
  lemma CowShared(m: Mem, dirs: set<nat>, s: Slot)
    requires Inv(m, dirs) && InUse(dirs, s) && Live(m, s) && Slotted(m, s) && m.free > 0
    requires Fresh(m) < |m.count|
    requires s.t >= 0 ==> m.count[At(m, s.dir, s.d).index] == 1
    requires !Entry(m, s).write && m.count[Target(m, s)] > 1
    ensures Inv(Cow(m, s), dirs) && Machine(Cow(m, s), dirs) == Machine(m, dirs)
    ensures Entry(Cow(m, s), s).write && Moved(m, Cow(m, s), dirs, s, Fresh(m))
  {
    var m', g := Cow(m, s), Fresh(m);
    FreshFrame(m, dirs);
    Referenced(m, dirs, s);
    CowCopyMoves(m, dirs, s);
    MovedCounts(m, m', dirs, s, g);
    forall r | InUse(dirs, r) && Live(m, r) ensures KERNEL_FRAMES <= Target(m', r) < |m'.count| { }
    assert InBounds(m', dirs);
    CowCopyWriteBits(m, dirs, s);
    forall r | InUse(dirs, r) && Live(m, r) && r.t >= 0
      ensures FrameAt(m', Target(m', r)) == FrameAt(m, Target(m, r))
    {
      CowCopyContents(m, dirs, s, r);
    }
    SameMachine(m, m', dirs);
    forall p | p in dirs ensures KernelHalf(m', p) {
      CowCopyKernelHalf(m, dirs, s, p);
    }
    MovedOnePlace(m, m', dirs, s, g);
  }

  /** How many frames copy_on_write takes at the entry of a slot. */
  function CowNeed(m: Mem, s: Slot): nat {
    if Entry(m, s).write || Target(m, s) >= |m.count| || m.count[Target(m, s)] <= 1 then 0 else 1
  }

  lemma MovedOnePlace(m: Mem, m': Mem, dirs: set<nat>, x: Slot, g: nat)
    requires Inv(m, dirs) && InUse(dirs, x) && Live(m, x) && Moved(m, m', dirs, x, g)
    requires forall r :: InUse(dirs, r) && Live(m, r) ==> Target(m, r) != g
    ensures OnePlace(m', dirs)
  {
    forall s, r ensures SamePlace(m', dirs, s, r) { assert SamePlace(m, dirs, s, r); }
  }

  /** One level of copy_on_write keeps the invariant and what every process reads, and
      leaves the entry writable; it takes a frame exactly if others reach this one too. */
  lemma CowKeeps(m: Mem, dirs: set<nat>, s: Slot)
    requires Inv(m, dirs) && InUse(dirs, s) && Live(m, s) && m.free >= CowNeed(m, s)
    requires s.t >= 0 ==> Entry(m, Slot(s.dir, s.d, -1)).write
    ensures Slotted(m, s) && (CowNeed(m, s) > 0 ==> Fresh(m) < |m.count|)
    ensures Inv(Cow(m, s), dirs) && Machine(Cow(m, s), dirs) == Machine(m, dirs)
    ensures Entry(Cow(m, s), s).write && Cow(m, s).free == m.free - CowNeed(m, s)
    ensures |Cow(m, s).frames| == |m.frames|
    ensures forall r :: InUse(dirs, r) ==> Live(Cow(m, s), r) == Live(m, r)
    ensures s.t >= 0 ==> Entry(Cow(m, s), Slot(s.dir, s.d, -1)) == Entry(m, Slot(s.dir, s.d, -1))
  {
    SlotIsSlotted(m, dirs, s);
    Referenced(m, dirs, s);
    var table := Slot(s.dir, s.d, -1);
    if s.t >= 0 {
      assert InUse(dirs, table) && Live(m, table);
    }
    if Entry(m, s).write {
    } else if m.count[Target(m, s)] == 1 {
      CowAlone(m, dirs, s);
    } else {
      FreshFrame(m, dirs);
      CowShared(m, dirs, s);
      if s.t >= 0 {
        CowCopyMoves(m, dirs, s);
      }
    }
  }

  /** One level of copy_on_write leaves the frame at another place alone, and its count. */
  lemma CowKeepsTarget(m: Mem, dirs: set<nat>, s: Slot, r: Slot)
    requires Inv(m, dirs) && InUse(dirs, s) && Live(m, s) && m.free >= CowNeed(m, s)
    requires s.t >= 0 ==> Entry(m, Slot(s.dir, s.d, -1)).write
    requires InUse(dirs, r) && Live(m, r) && (r.d != s.d || r.t != s.t)
    ensures Entry(Cow(m, s), r) == Entry(m, r) && Target(m, r) < |m.count| == |Cow(m, s).count|
    ensures Cow(m, s).count[Target(m, r)] == m.count[Target(m, r)]
  {
    SlotIsSlotted(m, dirs, s);
    Referenced(m, dirs, s);
    Referenced(m, dirs, r);
    assert SamePlace(m, dirs, s, r);
    if s.t >= 0 {
      assert InUse(dirs, Slot(s.dir, s.d, -1)) && Live(m, Slot(s.dir, s.d, -1));
    }
    if CowNeed(m, s) > 0 {
      FreshFrame(m, dirs);
      CowCopyMoves(m, dirs, s);
    } else if !Entry(m, s).write {
      CowAlone(m, dirs, s);
      CowAloneEntry(m, dirs, s, r);
    }
  }

  /** So what is needed there stays the same. */
  lemma CowKeepsNeed(m: Mem, dirs: set<nat>, s: Slot, r: Slot)
    requires Inv(m, dirs) && InUse(dirs, s) && Live(m, s) && m.free >= CowNeed(m, s)
    requires s.t >= 0 ==> Entry(m, Slot(s.dir, s.d, -1)).write
    requires InUse(dirs, r) && Live(m, r) && (r.d != s.d || r.t != s.t)
    ensures CowNeed(Cow(m, s), r) == CowNeed(m, r)
  {
    CowKeepsTarget(m, dirs, s, r);
  }

  lemma CowAloneEntry(m: Mem, dirs: set<nat>, s: Slot, r: Slot)
    requires Inv(m, dirs) && InUse(dirs, s) && Live(m, s) && Slotted(m, s)
    requires !Entry(m, s).write && m.count[Target(m, s)] == 1 && InUse(dirs, r) && Live(m, r) && (r.d != s.d || r.t != s.t)
    ensures Entry(Cow(m, s), r) == Entry(m, r)
  {
    var m' := Cow(m, s);
    var fr, k := EntryFrame(m, s), EntryIndex(s);
    forall f, i ensures At(m', f, i) == if f == fr && i == k then Entry(m, s).(write := true) else At(m, f, i) {
      SetWordAt(m, fr, k, Entry(m, s).(write := true), f, i);
    }
    var own, table := Slot(s.dir, s.d, -1), Slot(r.dir, r.d, -1);
    assert KernelHalf(m, r.dir) && KernelHalf(m, s.dir);
    assert InUse(dirs, own) && Live(m, own) && InUse(dirs, table) && Live(m, table);
    assert SamePlace(m, dirs, own, table);
    Referenced(m, dirs, own);
    Referenced(m, dirs, table);
  }
}
