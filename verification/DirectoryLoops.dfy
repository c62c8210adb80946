/** How far the loops of copy_pde and free_pde have come, in terms of the slots they have
    passed. */
module DirectoryLoops {
  import opened Words
  import opened Memory
  import opened CopyOnWrite
  import opened ForkExit
  import opened PageTables

  ghost function SlotsBelow(p: nat, d: int): set<Slot> {
    set e, t | KERNEL_DIRS <= e < d && -1 <= t < WORDS :: Slot(p, e, t)
  }

  /** Directory slots below `d`, and at `d` the table and its entries before `t`. */
  ghost function SlotsUpTo(p: nat, d: int, t: int): set<Slot> {
    SlotsBelow(p, d) + set u | -1 <= u < t :: Slot(p, d, u)
  }

  /** The same when the table itself comes last. */
  ghost function PagesUpTo(p: nat, d: int, t: int): set<Slot> {
    SlotsBelow(p, d) + set u | 0 <= u < t :: Slot(p, d, u)
  }

  lemma SlotSteps(p: nat, d: int, t: int)
    requires KERNEL_DIRS <= d < USER_DIRS && 0 <= t < WORDS
    ensures SlotsBelow(p, KERNEL_DIRS) == {} && SlotsBelow(p, USER_DIRS) == Slots({p})
    ensures SlotsUpTo(p, d, 0) == SlotsBelow(p, d) + {Slot(p, d, -1)} && Slot(p, d, -1) !in SlotsBelow(p, d)
    ensures SlotsUpTo(p, d, t + 1) == SlotsUpTo(p, d, t) + {Slot(p, d, t)} && Slot(p, d, t) !in SlotsUpTo(p, d, t)
    ensures SlotsUpTo(p, d, WORDS) == SlotsBelow(p, d + 1)
    ensures PagesUpTo(p, d, 0) == SlotsBelow(p, d)
    ensures PagesUpTo(p, d, t + 1) == PagesUpTo(p, d, t) + {Slot(p, d, t)} && Slot(p, d, t) !in PagesUpTo(p, d, t)
    ensures PagesUpTo(p, d, WORDS) + {Slot(p, d, -1)} == SlotsBelow(p, d + 1) && Slot(p, d, -1) !in PagesUpTo(p, d, WORDS)
  {
  }

  lemma SlotsWithin(p: nat, d: int, t: int)
    requires KERNEL_DIRS <= d < USER_DIRS && 0 <= t <= WORDS
    ensures SlotsUpTo(p, d, t) <= Slots({p}) && PagesUpTo(p, d, t) <= Slots({p})
  {
  }

  lemma RefsAdd(m: Mem, seen: set<Slot>, s: Slot, f: nat)
    requires s !in seen
    ensures |Refs(m, seen + {s}, f)| == |Refs(m, seen, f)| + if Live(m, s) && Target(m, s) == f then 1 else 0
  {
    assert Refs(m, seen + {s}, f) == Refs(m, seen, f) + if Live(m, s) && Target(m, s) == f then {s} else {};
  }

  /** A directory slot without a table leads nowhere. */
  lemma RefsSkip(m: Mem, p: nat, d: int, f: nat)
    requires KERNEL_DIRS <= d < USER_DIRS && !At(m, p, d).present
    ensures Refs(m, SlotsBelow(p, d + 1), f) == Refs(m, SlotsBelow(p, d), f)
  {
    forall s | s in SlotsBelow(p, d + 1) && s !in SlotsBelow(p, d) ensures !Live(m, s) { }
    assert SlotsBelow(p, d) <= SlotsBelow(p, d + 1);
  }

  /** The reference counts once fork has passed the slots in `seen`. */
  ghost predicate CountsShared(m: Mem, count: seq<u8>, seen: set<Slot>) {
    |count| == |m.count| &&
    forall f: nat :: f < |m.count| ==> count[f] == m.count[f] + |Refs(m, seen, f)|
  }

  /** What fork needs to know of the frames process `p` reaches. */
  ghost predicate Shareable(m: Mem, p: nat) {
    forall s :: s in Slots({p}) && Live(m, s) ==>
      KERNEL_FRAMES <= Target(m, s) < |m.count| && 0 < m.count[Target(m, s)] < TASK_NR &&
      |Refs(m, Slots({p}), Target(m, s))| <= 1
  }

  lemma IsShareable(m: Mem, dirs: set<nat>, p: nat)
    requires Inv(m, dirs) && p in dirs && |dirs| < TASK_NR
    ensures Shareable(m, p)
  {
    forall s | s in Slots({p}) && Live(m, s)
      ensures KERNEL_FRAMES <= Target(m, s) < |m.count| && 0 < m.count[Target(m, s)] < TASK_NR
      ensures |Refs(m, Slots({p}), Target(m, s))| <= 1
    {
      InSlots({p}, s);
      assert InUse(dirs, s);
      Referenced(m, dirs, s);
      CountBound(m, dirs, Target(m, s));
      OneRefPerProcess(m, dirs, p, Target(m, s));
    }
  }

  lemma SubsetRefs(m: Mem, S: set<Slot>, T: set<Slot>, f: nat)
    requires S <= T
    ensures |Refs(m, S, f)| <= |Refs(m, T, f)|
  {
    assert Refs(m, T, f) == Refs(m, S, f) + Refs(m, T - S, f);
  }

  /** Passing one more live slot adds one, and stays below 255. */
  lemma ShareStep(m: Mem, count: seq<u8>, p: nat, seen: set<Slot>, s: Slot)
    requires Shareable(m, p) && seen + {s} <= Slots({p}) && s !in seen
    requires CountsShared(m, count, seen) && Live(m, s)
    ensures KERNEL_FRAMES <= Target(m, s) < |count| && 0 < count[Target(m, s)] < 254
    ensures CountsShared(m, count[Target(m, s) := count[Target(m, s)] + 1], seen + {s})
  {
    var f := Target(m, s);
    SubsetRefs(m, seen, Slots({p}), f);
    forall g: nat ensures |Refs(m, seen + {s}, g)| == |Refs(m, seen, g)| + if g == f then 1 else 0 {
      RefsAdd(m, seen, s, g);
    }
  }

  lemma ShareSkip(m: Mem, count: seq<u8>, seen: set<Slot>, s: Slot)
    requires CountsShared(m, count, seen) && !Live(m, s) && s !in seen
    ensures CountsShared(m, count, seen + {s})
  {
    forall g: nat ensures |Refs(m, seen + {s}, g)| == |Refs(m, seen, g)| {
      RefsAdd(m, seen, s, g);
    }
  }

  /** One entry of a table, whether or not it is present. */
  lemma ShareEntryStep(m: Mem, count: seq<u8>, p: nat, d: int, t: int)
    requires Shareable(m, p) && KERNEL_DIRS <= d < USER_DIRS && 0 <= t < WORDS && At(m, p, d).present
    requires CountsShared(m, count, SlotsUpTo(p, d, t))
    ensures var e := At(m, At(m, p, d).index, t);
      if e.present then
        KERNEL_FRAMES <= e.index < |count| && 0 < count[e.index] < 254 &&
        CountsShared(m, count[e.index := count[e.index] + 1], SlotsUpTo(p, d, t + 1))
      else CountsShared(m, count, SlotsUpTo(p, d, t + 1))
  {
    var s := Slot(p, d, t);
    SlotSteps(p, d, t);
    SlotsWithin(p, d, t + 1);
    if Live(m, s) {
      ShareStep(m, count, p, SlotsUpTo(p, d, t), s);
    } else {
      ShareSkip(m, count, SlotsUpTo(p, d, t), s);
    }
  }

  function PartDir(fr: Frame, d: int): Frame {
    seq(WORDS, k requires 0 <= k < WORDS =>
      if KERNEL_DIRS <= k < d && fr[k].present then fr[k].(write := false) else fr[k])
  }

  function PartTable(fr: Frame, t: int): Frame {
    seq(WORDS, k requires 0 <= k < WORDS => if k < t then ReadOnly(fr[k]) else fr[k])
  }

  ghost function TablesBelow(m: Mem, p: nat, d: int): set<nat> {
    set e | KERNEL_DIRS <= e < d && At(m, p, e).present :: At(m, p, e).index
  }

  ghost function SharedFrame(m: Mem, p: nat, d: int, f: nat): Frame
    requires p < |m.frames| && f < |m.frames|
  {
    if f == p then PartDir(m.frames[p], d)
    else if f in TablesBelow(m, p, d) then ReadOnlyTable(m.frames[f])
    else m.frames[f]
  }

  /** Memory once fork has passed the directory slots below `d`. */
  ghost predicate FramesShared(m: Mem, frames: seq<Frame>, p: nat, d: int) {
    p < |m.frames| && |frames| == |m.frames| &&
    forall f: nat :: f < |m.frames| ==> frames[f] == SharedFrame(m, p, d, f)
  }

  /** The tables of `p` are frames above the kernel's, one for each slot. */
  ghost predicate DistinctTables(m: Mem, p: nat) {
    p < KERNEL_FRAMES < |m.frames| && At(m, p, SELF) == EntryInit(p) &&
    (forall e :: KERNEL_DIRS <= e < USER_DIRS && At(m, p, e).present ==>
      KERNEL_FRAMES <= At(m, p, e).index < |m.frames|) &&
    (forall e, d |
      KERNEL_DIRS <= e < USER_DIRS && KERNEL_DIRS <= d < USER_DIRS && At(m, p, e).present && At(m, p, d).present &&
      At(m, p, e).index == At(m, p, d).index
      :: e == d)
  }

  lemma TablesAreDistinct(m: Mem, dirs: set<nat>, p: nat)
    requires Inv(m, dirs) && p in dirs
    ensures DistinctTables(m, p)
  {
    assert KernelHalf(m, p);
    forall e | KERNEL_DIRS <= e < USER_DIRS && At(m, p, e).present
      ensures InUse(dirs, Slot(p, e, -1)) && Live(m, Slot(p, e, -1)) && Target(m, Slot(p, e, -1)) == At(m, p, e).index
    {
    }
    forall e, d |
      KERNEL_DIRS <= e < USER_DIRS && KERNEL_DIRS <= d < USER_DIRS && At(m, p, e).present && At(m, p, d).present &&
      At(m, p, e).index == At(m, p, d).index
      ensures e == d
    {
      assert SamePlace(m, dirs, Slot(p, e, -1), Slot(p, d, -1));
    }
  }

  /** Each step of the outer loop: the directory entry first, then its whole table. */
  lemma FramesStep(m: Mem, frames: seq<Frame>, p: nat, d: int)
    requires DistinctTables(m, p) && KERNEL_DIRS <= d < USER_DIRS && FramesShared(m, frames, p, d)
    ensures p < KERNEL_FRAMES < |frames| && frames[p][d] == At(m, p, d) && frames[p][SELF] == EntryInit(p)
    ensures !At(m, p, d).present ==> FramesShared(m, frames, p, d + 1)
    ensures At(m, p, d).present ==>
      var table := At(m, p, d).index;
      KERNEL_FRAMES <= table < |frames| && frames[table] == m.frames[table] &&
      FramesShared(m, frames[p := frames[p][d := At(m, p, d).(write := false)]][table := ReadOnlyTable(m.frames[table])], p, d + 1)
  {
    if At(m, p, d).present {
      assert TablesBelow(m, p, d + 1) == TablesBelow(m, p, d) + {At(m, p, d).index};
      assert PartDir(m.frames[p], d)[d := At(m, p, d).(write := false)] == PartDir(m.frames[p], d + 1);
    } else {
      assert TablesBelow(m, p, d + 1) == TablesBelow(m, p, d);
      assert PartDir(m.frames[p], d) == PartDir(m.frames[p], d + 1);
    }
  }

  lemma FramesStart(m: Mem, p: nat)
    requires p < |m.frames|
    ensures FramesShared(m, m.frames, p, KERNEL_DIRS)
  {
    assert PartDir(m.frames[p], KERNEL_DIRS) == m.frames[p];
  }

  /** One more entry of a table, seen through its window. */
  lemma TableStep(fr: Frame, t: int)
    requires 0 <= t < WORDS
    ensures PartTable(fr, 0) == fr && PartTable(fr, WORDS) == ReadOnlyTable(fr)
    ensures PartTable(fr, t)[t] == fr[t] && PartTable(fr, t + 1) == PartTable(fr, t)[t := ReadOnly(fr[t])]
    ensures PartTable(fr, t + 1)[t] == ReadOnly(fr[t])
  {
  }

  lemma TableWindow(m: Mem, p: nat, d: nat, t: nat)
    requires At(m, p, SELF) == EntryInit(p) && d < WORDS && t < WORDS
    ensures TableFrame(m, p, PDE_MASK + d * 0x1000 + t * 4) == p
    ensures PageFrame(m, p, PDE_MASK + d * 0x1000 + t * 4) == At(m, p, d).index
    ensures Off(PDE_MASK + d * 0x1000 + t * 4) == t
  {
    assert PDE_MASK + d * 0x1000 + t * 4 == 1023 * 0x400000 + d * 0x1000 + t * 4;
  }

  /** The copy of the directory completes the fork. */
  lemma FramesDone(m: Mem, m1: Mem, m': Mem, dirs: set<nat>, p: nat, c: nat)
    requires Inv(m, dirs) && p in dirs && FreeKernelPage(dirs, c)
    requires FramesShared(m, m1.frames, p, USER_DIRS) && CountsShared(m, m1.count, Slots({p})) && m1.free == m.free
    requires m' == m1.(frames := m1.frames[c := m1.frames[p][SELF := EntryInit(c)]])
    ensures Forked(m, m', p, c)
  {
    assert KernelHalf(m, p);
    assert PartDir(m.frames[p], USER_DIRS) == ReadOnlyDir(m.frames[p]);
    assert TablesBelow(m, p, USER_DIRS) == TablesOf(m, p);
  }

  // ---------------------------------------------------------------- exit

  /** What exit needs to know of the frames process `p` reaches. */
  ghost predicate Returnable(m: Mem, p: nat) {
    forall s :: s in Slots({p}) && Live(m, s) ==>
      KERNEL_FRAMES <= Target(m, s) < |m.count| && m.count[Target(m, s)] >= |Refs(m, Slots({p}), Target(m, s))|
  }

  lemma IsReturnable(m: Mem, dirs: set<nat>, p: nat)
    requires Inv(m, dirs) && p in dirs
    ensures Returnable(m, p)
  {
    forall s | s in Slots({p}) && Live(m, s)
      ensures KERNEL_FRAMES <= Target(m, s) < |m.count|
      ensures m.count[Target(m, s)] >= |Refs(m, Slots({p}), Target(m, s))|
    {
      InSlots({p}, s);
      assert InUse(dirs, s);
      Referenced(m, dirs, s);
      OneRefPerProcess(m, dirs, p, Target(m, s));
    }
  }

  /** The reference counts once exit has given back the slots in `seen`. */
  ghost predicate CountsReturned(m: Mem, count: seq<u8>, seen: set<Slot>) {
    |count| == |m.count| &&
    forall f: nat :: f < |m.count| ==> count[f] == m.count[f] - |Refs(m, seen, f)|
  }

  /** Giving back one more live slot: the frame still has that reference. */
  lemma ReturnStep(m: Mem, count: seq<u8>, p: nat, seen: set<Slot>, s: Slot)
    requires Returnable(m, p) && seen + {s} <= Slots({p}) && s !in seen
    requires CountsReturned(m, count, seen) && Live(m, s)
    ensures KERNEL_FRAMES <= Target(m, s) < |count| && count[Target(m, s)] > 0
    ensures CountsReturned(m, count[Target(m, s) := count[Target(m, s)] - 1], seen + {s})
  {
    var f := Target(m, s);
    assert s in Slots({p});
    SubsetRefs(m, seen + {s}, Slots({p}), f);
    forall g: nat ensures |Refs(m, seen + {s}, g)| == |Refs(m, seen, g)| + if g == f then 1 else 0 {
      RefsAdd(m, seen, s, g);
    }
  }

  lemma ReturnSkip(m: Mem, count: seq<u8>, seen: set<Slot>, s: Slot)
    requires CountsReturned(m, count, seen) && !Live(m, s) && s !in seen
    ensures CountsReturned(m, count, seen + {s})
  {
    forall g: nat ensures |Refs(m, seen + {s}, g)| == |Refs(m, seen, g)| {
      RefsAdd(m, seen, s, g);
    }
  }

  /** One entry of a table, whether or not it is present. */
  lemma ReturnEntryStep(m: Mem, count: seq<u8>, p: nat, d: int, t: int)
    requires Returnable(m, p) && KERNEL_DIRS <= d < USER_DIRS && 0 <= t < WORDS && At(m, p, d).present
    requires CountsReturned(m, count, PagesUpTo(p, d, t))
    ensures var e := At(m, At(m, p, d).index, t);
      if e.present then
        KERNEL_FRAMES <= e.index < |count| && count[e.index] > 0 &&
        CountsReturned(m, count[e.index := count[e.index] - 1], PagesUpTo(p, d, t + 1))
      else CountsReturned(m, count, PagesUpTo(p, d, t + 1))
  {
    var s := Slot(p, d, t);
    SlotSteps(p, d, t);
    SlotsWithin(p, d, t + 1);
    if Live(m, s) {
      ReturnStep(m, count, p, PagesUpTo(p, d, t), s);
    } else {
      ReturnSkip(m, count, PagesUpTo(p, d, t), s);
    }
  }

  /** The table itself, after its entries. */
  lemma ReturnTableStep(m: Mem, count: seq<u8>, p: nat, d: int)
    requires Returnable(m, p) && KERNEL_DIRS <= d < USER_DIRS && At(m, p, d).present
    requires CountsReturned(m, count, PagesUpTo(p, d, WORDS))
    ensures var f := At(m, p, d).index;
      KERNEL_FRAMES <= f < |count| && count[f] > 0 &&
      CountsReturned(m, count[f := count[f] - 1], SlotsBelow(p, d + 1))
  {
    var s := Slot(p, d, -1);
    SlotSteps(p, d, 0);
    SlotsWithin(p, d, WORDS);
    assert Live(m, s) && Target(m, s) == At(m, p, d).index && s in Slots({p});
    ReturnStep(m, count, p, PagesUpTo(p, d, WORDS), s);
  }

  /** free_pages counts the free frames, and the kernel keeps its own. */
  ghost predicate FreeCounted(count: seq<u8>, free: int) {
    |count| > KERNEL_FRAMES && count[0] == 1 && count[1] == 1 && free == FreeFrames(count)
  }

  lemma FreeCountedStep(count: seq<u8>, free: int, f: nat)
    requires FreeCounted(count, free) && KERNEL_FRAMES <= f < |count| && count[f] > 0
    ensures 0 <= free < |count| - 1
    ensures FreeCounted(count[f := count[f] - 1], free + if count[f] == 1 then 1 else 0)
  {
    FreeFramesUpdate(count, f, count[f] - 1);
    FewerFree(count, 2, |count|);
  }

  /** The first frame free_pde still has to put back: of the entries of a table from t on, of
      directory slot d from entry t on, and of the directory slots from d on. */
  function FirstPage(m: Mem, table: nat, t: nat): Option<nat>
    decreases WORDS - t
  {
    if t >= WORDS then None else if At(m, table, t).present then Some(At(m, table, t).index) else FirstPage(m, table, t + 1)
  }

  function FirstIn(m: Mem, p: nat, d: nat, t: nat): Option<nat> {
    var f := FirstPage(m, At(m, p, d).index, t);
    if f.Some? then f else Some(At(m, p, d).index)
  }

  function FirstBack(m: Mem, p: nat, d: nat): Option<nat>
    decreases USER_DIRS - d
  {
    if d >= USER_DIRS then None else if At(m, p, d).present then FirstIn(m, p, d, 0) else FirstBack(m, p, d + 1)
  }

  /** A frame is free, or will be when the next one is put back. */
  predicate Spare(count: seq<u8>, free: int, next: Option<nat>) {
    free > 0 || next.None? || (next.value < |count| && count[next.value] == 1)
  }

  /** What lets a process exit: put_page asserts that a frame is free once the first frame of the
      process was put back. */
  predicate CanExit(m: Mem, p: nat) {
    Spare(m.count, m.free, FirstBack(m, p, KERNEL_DIRS))
  }

  lemma {:induction false} FirstPageIs(m: Mem, table: nat, t: nat)
    ensures match FirstPage(m, table, t)
      case Some(f) => exists u :: t <= u < WORDS && At(m, table, u).present && At(m, table, u).index == f
      case None => true
    decreases WORDS - t
  {
    if t < WORDS && !At(m, table, t).present { FirstPageIs(m, table, t + 1); }
  }

  lemma {:induction false} FirstBackIs(m: Mem, p: nat, d: nat)
    requires KERNEL_DIRS <= d
    ensures FirstBack(m, p, d).Some? ==>
      exists s :: InUse({p}, s) && Live(m, s) && Target(m, s) == FirstBack(m, p, d).value
    decreases USER_DIRS - d
  {
    if d < USER_DIRS {
      if At(m, p, d).present {
        FirstPageIs(m, At(m, p, d).index, 0);
        if FirstPage(m, At(m, p, d).index, 0).Some? {
          var u :| 0 <= u < WORDS && At(m, At(m, p, d).index, u).present && At(m, At(m, p, d).index, u).index == FirstBack(m, p, d).value;
          assert Live(m, Slot(p, d, u)) && InUse({p}, Slot(p, d, u));
        } else {
          assert Live(m, Slot(p, d, -1)) && InUse({p}, Slot(p, d, -1));
        }
      } else {
        FirstBackIs(m, p, d + 1);
      }
    }
  }

  /** A process that has a page has a first frame to put back. */
  lemma {:induction false} SomethingBack(m: Mem, p: nat, d: nat, s: Slot)
    requires KERNEL_DIRS <= d && InUse({p}, s) && Live(m, s) && d <= s.d
    ensures FirstBack(m, p, d).Some?
    decreases USER_DIRS - d
  {
    if !At(m, p, d).present { SomethingBack(m, p, d + 1, s); }
  }

  /** The assertion at the end of put_page holds for that frame exactly under this condition. */
  lemma ExitAsserts(m: Mem, dirs: set<nat>, p: nat)
    requires Inv(m, dirs) && p in dirs && FirstBack(m, p, KERNEL_DIRS).Some?
    ensures var f := FirstBack(m, p, KERNEL_DIRS).value;
      f < |m.count| && m.count[f] > 0 && (Drop(m, f).free > 0 <==> CanExit(m, p))
  {
    FirstBackIs(m, p, KERNEL_DIRS);
    var s :| InUse({p}, s) && Live(m, s) && Target(m, s) == FirstBack(m, p, KERNEL_DIRS).value;
    Referenced(m, dirs, s);
  }

  /** After a fork with no frame left, neither the parent nor the child can exit. */
  lemma ForkedIsStuck(m: Mem, m': Mem, dirs: set<nat>, p: nat, c: nat, v: nat)
    requires Inv(m, dirs) && p in dirs && FreeKernelPage(dirs, c) && |dirs| < TASK_NR && Forked(m, m', p, c)
    requires m.free == 0 && UserAddress(v) && Live(m, SlotOf(p, v))
    ensures !CanExit(m', p) && !CanExit(m', c)
  {
    UserIndices(v);
    ForkKeeps(m, m', dirs, p, c);
    StuckAt(m, m', dirs, p, c, v, p);
    StuckAt(m, m', dirs, p, c, v, c);
  }

  lemma StuckAt(m: Mem, m': Mem, dirs: set<nat>, p: nat, c: nat, v: nat, q: nat)
    requires Inv(m, dirs) && p in dirs && FreeKernelPage(dirs, c) && |dirs| < TASK_NR && Forked(m, m', p, c)
    requires m.free == 0 && UserAddress(v) && Live(m, SlotOf(p, v)) && (q == p || q == c)
    ensures !CanExit(m', q)
  {
    UserIndices(v);
    ForkedPath(m, m', dirs, p, c, SlotOf(q, v));
    SomethingBack(m', q, KERNEL_DIRS, SlotOf(q, v));
    FirstBackIs(m', q, KERNEL_DIRS);
    var s :| InUse({q}, s) && Live(m', s) && Target(m', s) == FirstBack(m', q, KERNEL_DIRS).value;
    ForkedPath(m, m', dirs, p, c, s);
    var r := s.(dir := p);
    if s.dir == p { assert r == s; }
    Referenced(m, dirs, r);
    InSlots({p}, r);
    assert r in Refs(m, Slots({p}), Target(m, r));
    assert |Refs(m, Slots({p}), Target(m, r))| >= 1;
  }

  /** After a fork unlink_page needs two free frames: one for the table, and one that put_page
      asserts. */
  lemma ForkedUnlink(m: Mem, m': Mem, dirs: set<nat>, p: nat, c: nat, v: nat)
    requires Inv(m, dirs) && p in dirs && FreeKernelPage(dirs, c) && |dirs| < TASK_NR && Forked(m, m', p, c)
    requires UserAddress(v) && Live(m, SlotOf(p, v))
    ensures CanUnlink(m', p, v) <==> m'.free >= 2
  {
    UserIndices(v);
    SharedTwice(m, m', dirs, p, c, SlotOf(p, v));
    SharedTwice(m, m', dirs, p, c, TableSlotOf(p, v));
  }

  lemma SharedTwice(m: Mem, m': Mem, dirs: set<nat>, p: nat, c: nat, s: Slot)
    requires Inv(m, dirs) && p in dirs && FreeKernelPage(dirs, c) && |dirs| < TASK_NR && Forked(m, m', p, c)
    requires InUse({p}, s) && Live(m, s)
    ensures Live(m', s) && Target(m', s) == Target(m, s) < |m'.count| && m'.count[Target(m, s)] >= 2 && !Entry(m', s).write
  {
    assert InUse(dirs, s) && InUse(dirs + {c}, s);
    ForkedPath(m, m', dirs, p, c, s);
    Referenced(m, dirs, s);
    InSlots({p}, s);
    assert s in Refs(m, Slots({p}), Target(m, s));
    assert |Refs(m, Slots({p}), Target(m, s))| >= 1;
  }

  /** Before and after the loops. */
  lemma NothingSeen(m: Mem, p: nat)
    ensures CountsShared(m, m.count, SlotsBelow(p, KERNEL_DIRS)) && CountsReturned(m, m.count, SlotsBelow(p, KERNEL_DIRS))
    ensures SlotsBelow(p, USER_DIRS) == Slots({p})
  {
    SlotSteps(p, KERNEL_DIRS, 0);
    forall f: nat ensures Refs(m, SlotsBelow(p, KERNEL_DIRS), f) == {} { }
  }
}
