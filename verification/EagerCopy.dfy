/** The machine copy-on-write must look like: fork copies every page, each process has
    its pages to itself.  Runs of the memory manager are compared with runs of it. */
module EagerCopy {
  import opened Words
  import opened Memory
  import opened CopyOnWrite
  import opened PageMapping
  import opened ForkExit
  import opened PageTables
  import opened DirectoryLoops
  import opened MemoryManager

  type Spaces = map<nat, Space>

  /** What the running process, named by its directory `p`, asks for. */
  datatype Op =
    | Fork(p: nat, c: nat)
    | Store(p: nat, v: nat, w: Word, brk: nat)
    | Link(p: nat, v: nat)
    | Unlink(p: nat, v: nat)
    | Exit(p: nat)

  /** One step of the eager machine.  A page that appears holds arbitrary contents. */
  ghost predicate EagerStep(a: Spaces, op: Op, a': Spaces) {
    op.p in a &&
    match op
    case Fork(p, c) => c !in a && a' == a[c := a[p]]
    case Store(p, v, w, brk) =>
      if !UserAddress(v) || (PageOf(v) !in a[p] && brk <= v < USER_STACK_BOTTOM) then a' == a
      else exists before: Frame :: StoredOver(a, p, v, w, before, a')
    case Link(p, v) =>
      if PageOf(v) in a[p] then a' == a else exists left: Frame :: a' == WithPage(a, p, PageOf(v), left)
    case Unlink(p, v) => a' == WithoutPage(a, p, PageOf(v))
    case Exit(p) => a' == a - {p}
  }

  ghost predicate StoredOver(a: Spaces, p: nat, v: nat, w: Word, before: Frame, a': Spaces) {
    p in a && Off(v) < WORDS && (PageOf(v) in a[p] ==> before == a[p][PageOf(v)]) &&
    a' == WithPage(a, p, PageOf(v), before[Off(v) := w])
  }

  ghost predicate EagerRun(ops: seq<Op>, trace: seq<Spaces>) {
    |trace| == |ops| + 1 && forall i :: 0 <= i < |ops| ==> EagerStep(trace[i], ops[i], trace[i + 1])
  }

  // ---------------------------------------------------------------- isolation, as the eager machine shows it

  /** Whose space a step may change. */
  predicate Touches(op: Op, q: nat) {
    match op
    case Fork(p, c) => q == c
    case _ => q == op.p
  }

  lemma StepIsLocal(a: Spaces, op: Op, a': Spaces, q: nat)
    requires EagerStep(a, op, a') && q in a && !Touches(op, q)
    ensures q in a' && a'[q] == a[q]
  {
  }

  /** In every run, a process reads at each of its pages the same contents from one of its
      own operations to the next, whatever the others do. */
  lemma {:induction false} Isolation(ops: seq<Op>, trace: seq<Spaces>, q: nat, i: nat, j: nat)
    requires EagerRun(ops, trace) && i <= j <= |ops| && q in trace[i]
    requires forall k :: i <= k < j ==> !Touches(ops[k], q)
    ensures q in trace[j] && trace[j][q] == trace[i][q]
  {
    if i < j {
      Isolation(ops, trace, q, i, j - 1);
      StepIsLocal(trace[j - 1], ops[j - 1], trace[j], q);
    }
  }

  // ---------------------------------------------------------------- the memory manager refines it

  /** What lets an operation run: a free kernel page and a free task for fork, the frames it
      takes for the others, and what put_page asserts.  The kernel stops otherwise. */
  predicate Enabled(m: Mem, dirs: set<nat>, op: Op) {
    op.p in dirs &&
    match op
    case Fork(p, c) => FreeKernelPage(dirs, c) && |dirs| < TASK_NR
    case Store(p, v, w, brk) => Resolved(v, Live(m, SlotOf(p, v)), brk) ==> m.free >= StoreNeed(m, p, v)
    case Link(p, v) => UserAddress(v) && PageStart(v) == v && m.free >= LinkNeed(m, p, v)
    case Unlink(p, v) => UserAddress(v) && PageStart(v) == v && CanUnlink(m, p, v)
    case Exit(p) => CanExit(m, p)
  }

  lemma MachineHas(m: Mem, dirs: set<nat>, p: nat, v: nat)
    requires Inv(m, dirs) && p in dirs && UserAddress(v)
    ensures p in Machine(m, dirs)
    ensures PageOf(v) in Machine(m, dirs)[p] <==> Live(m, SlotOf(p, v))
    ensures Live(m, SlotOf(p, v)) ==> Machine(m, dirs)[p][PageOf(v)] == FrameAt(m, Target(m, SlotOf(p, v)))
  {
    UserIndices(v);
    SpaceAt(m, dirs, SlotOf(p, v));
  }

  /** The running process is switched to, and carries out one operation. */
  method Perform(mm: MemoryManager, op: Op)
    requires mm.Consistent() && Enabled(mm.State(), mm.dirs, op)
    modifies mm, mm.frames, mm.memoryMap
    ensures mm.frames == old(mm.frames) && mm.memoryMap == old(mm.memoryMap)
    ensures mm.Consistent()
    ensures EagerStep(old(Machine(mm.State(), mm.dirs)), op, Machine(mm.State(), mm.dirs))
  {
    hide Inv, Machine, EagerStep, StoreNeed, LinkNeed, CanUnlink, CanExit, FreeKernelPage;
    mm.cr3 := op.p;
    match op
    case Fork(_, c) => PerformFork(mm, c);
    case Store(_, v, w, brk) => PerformStore(mm, v, w, brk);
    case Link(_, v) => PerformLink(mm, v);
    case Unlink(_, v) => PerformUnlink(mm, v);
    case Exit(_) => PerformExit(mm);
  }

  method PerformFork(mm: MemoryManager, c: nat)
    requires mm.Valid() && FreeKernelPage(mm.dirs, c) && |mm.dirs| < TASK_NR
    modifies mm, mm.frames, mm.memoryMap
    ensures mm.frames == old(mm.frames) && mm.memoryMap == old(mm.memoryMap) && mm.Consistent()
    ensures EagerStep(old(Machine(mm.State(), mm.dirs)), Fork(old(mm.cr3), c), Machine(mm.State(), mm.dirs))
  {
    ghost var m, dirs := mm.State(), mm.dirs;
    mm.CopyPde(c);
    ForkKeeps(m, mm.State(), dirs, mm.cr3, c);
  }

  method PerformStore(mm: MemoryManager, v: nat, w: Word, brk: nat)
    requires mm.Valid() && (Resolved(v, Live(mm.State(), SlotOf(mm.cr3, v)), brk) ==> mm.freePages >= StoreNeed(mm.State(), mm.cr3, v))
    modifies mm, mm.frames, mm.memoryMap
    ensures mm.frames == old(mm.frames) && mm.memoryMap == old(mm.memoryMap) && mm.Consistent()
    ensures EagerStep(old(Machine(mm.State(), mm.dirs)), Store(old(mm.cr3), v, w, brk), Machine(mm.State(), mm.dirs))
  {
    hide Inv, Machine, StoreNeed, StoreMem;
    ghost var m, dirs, p := mm.State(), mm.dirs, mm.cr3;
    var outcome := mm.UserStore(v, w, brk);
    InMachine(m, dirs, p);
    if UserAddress(v) {
      MachineHas(m, dirs, p, v);
      if outcome == Resumed {
        StoreMemKeeps(m, dirs, p, v, w);
        assert StoredOver(Machine(m, dirs), p, v, w, BeforeStore(m, p, v), Machine(mm.State(), dirs));
      }
    }
  }

  lemma InMachine(m: Mem, dirs: set<nat>, p: nat)
    ensures p in Machine(m, dirs) <==> p in dirs
  {
  }

  method PerformLink(mm: MemoryManager, v: nat)
    requires mm.Valid() && UserAddress(v) && PageStart(v) == v && mm.freePages >= LinkNeed(mm.State(), mm.cr3, v)
    modifies mm, mm.frames, mm.memoryMap
    ensures mm.frames == old(mm.frames) && mm.memoryMap == old(mm.memoryMap) && mm.Consistent()
    ensures EagerStep(old(Machine(mm.State(), mm.dirs)), Link(old(mm.cr3), v), Machine(mm.State(), mm.dirs))
  {
    hide Inv, Machine, LinkNeed, LinkMem;
    ghost var m, dirs, p := mm.State(), mm.dirs, mm.cr3;
    mm.LinkPage(v);
    MachineHas(m, dirs, p, v);
    LinkKeeps(m, dirs, p, v);
  }

  method PerformUnlink(mm: MemoryManager, v: nat)
    requires mm.Valid() && UserAddress(v) && PageStart(v) == v && CanUnlink(mm.State(), mm.cr3, v)
    modifies mm, mm.frames, mm.memoryMap
    ensures mm.frames == old(mm.frames) && mm.memoryMap == old(mm.memoryMap) && mm.Consistent()
    ensures EagerStep(old(Machine(mm.State(), mm.dirs)), Unlink(old(mm.cr3), v), Machine(mm.State(), mm.dirs))
  {
    hide Inv, Machine, UnlinkMem;
    ghost var m, dirs, p := mm.State(), mm.dirs, mm.cr3;
    MachineHas(m, dirs, p, v);
    mm.UnlinkPage(v);
    UnlinkNeeds(m, dirs, p, v);
    UnlinkKeeps(m, dirs, p, v);
  }

  lemma UnlinkNeeds(m: Mem, dirs: set<nat>, p: nat, v: nat)
    requires Inv(m, dirs) && p in dirs && UserAddress(v) && CanUnlink(m, p, v)
    ensures Live(m, SlotOf(p, v)) ==> m.free >= CowNeed(m, TableSlotOf(p, v))
  {
    UserIndices(v);
    if Live(m, SlotOf(p, v)) { Referenced(m, dirs, SlotOf(p, v)); }
  }

  method PerformExit(mm: MemoryManager)
    requires mm.Valid() && CanExit(mm.State(), mm.cr3)
    modifies mm, mm.frames, mm.memoryMap
    ensures mm.frames == old(mm.frames) && mm.memoryMap == old(mm.memoryMap) && mm.Consistent()
    ensures EagerStep(old(Machine(mm.State(), mm.dirs)), Exit(old(mm.cr3)), Machine(mm.State(), mm.dirs))
  {
    ghost var m, dirs, p := mm.State(), mm.dirs, mm.cr3;
    InMachine(m, dirs, p);
    mm.FreePde(0);
    ExitKeeps(m, mm.State(), dirs, p);
  }

  /** None of the operations may change what q reads. */
  ghost predicate Untouched(ops: seq<Op>, q: nat) {
    forall k :: 0 <= k < |ops| ==> !Touches(ops[k], q)
  }

  /** Any run of the memory manager, from any consistent state, shows its processes exactly
      what the eager machine shows them, step by step, for as long as the kernel has the
      frames and task slots it needs.  So a process reads in the end what it read at the start,
      whatever all others did. */
  method Run(mm: MemoryManager, ops: seq<Op>) returns (done: nat, ghost trace: seq<Spaces>)
    requires mm.Consistent()
    modifies mm, mm.frames, mm.memoryMap
    ensures mm.Consistent() && done <= |ops|
    ensures EagerRun(ops[..done], trace)
    ensures trace[0] == old(Machine(mm.State(), mm.dirs)) && trace[done] == Machine(mm.State(), mm.dirs)
    ensures done < |ops| ==> !Enabled(mm.State(), mm.dirs, ops[done])
    ensures forall q :: q in old(Machine(mm.State(), mm.dirs)) && Untouched(ops[..done], q) ==>
      q in Machine(mm.State(), mm.dirs) && Machine(mm.State(), mm.dirs)[q] == old(Machine(mm.State(), mm.dirs))[q]
    ensures mm.dirs == {} ==> mm.freePages == mm.memoryMap.Length - KERNEL_FRAMES
  {
    hide Enabled, Machine, EagerStep, Touches, Inv;
    done := 0;
    trace := [Machine(mm.State(), mm.dirs)];
    while done < |ops| && Enabled(mm.State(), mm.dirs, ops[done])
      invariant mm.frames == old(mm.frames) && mm.memoryMap == old(mm.memoryMap)
      invariant mm.Consistent() && done <= |ops| && EagerRun(ops[..done], trace)
      invariant trace[0] == old(Machine(mm.State(), mm.dirs)) && trace[done] == Machine(mm.State(), mm.dirs)
      decreases |ops| - done
    {
      ghost var before := trace;
      Perform(mm, ops[done]);
      done := done + 1;
      trace := trace + [Machine(mm.State(), mm.dirs)];
      ExtendRun(ops[..done - 1], ops[done - 1], before, Machine(mm.State(), mm.dirs));
      assert ops[..done - 1] + [ops[done - 1]] == ops[..done];
    }
    if mm.dirs == {} {
      AllGone(mm.State());
    }
    forall q | q in trace[0] && Untouched(ops[..done], q) ensures q in trace[done] && trace[done][q] == trace[0][q] {
      Isolation(ops[..done], trace, q, 0, done);
    }
  }

  /** A child keeps the pages its parent had at the fork, whatever the parent and all others do
      afterwards. */
  method ForkThenRun(mm: MemoryManager, p: nat, c: nat, ops: seq<Op>) returns (done: nat)
    requires mm.Consistent() && p in mm.dirs && FreeKernelPage(mm.dirs, c) && |mm.dirs| < TASK_NR
    modifies mm, mm.frames, mm.memoryMap
    ensures mm.Consistent() && done <= |ops|
    ensures Untouched(ops[..done], c) ==>
      c in Machine(mm.State(), mm.dirs) && Machine(mm.State(), mm.dirs)[c] == old(Machine(mm.State(), mm.dirs))[p]
  {
    hide Machine, Untouched, Inv;
    InMachine(mm.State(), mm.dirs, p);
    Perform(mm, Fork(p, c));
    ghost var trace;
    done, trace := Run(mm, ops);
  }

  lemma ExtendRun(ops: seq<Op>, op: Op, trace: seq<Spaces>, a: Spaces)
    requires EagerRun(ops, trace) && EagerStep(trace[|ops|], op, a)
    ensures EagerRun(ops + [op], trace + [a])
  {
  }

  // ---------------------------------------------------------------- the state at boot

  /** Memory as mapping_init leaves it: the kernel directory in frame 1, the first 16M mapped to
      themselves but for page 0 by the tables in frames 2 to 5, nothing mapped for users, and
      every frame above the kernel's free.  `open` is USER_MEMORY, whether user code may read the
      kernel's memory. */
  function BootEntry(k: nat, open: bool): Word {
    if k < KERNEL_DIRS then EntryInit(KERNEL_TABLE + k).(user := open) else if k == SELF then EntryInit(1) else ZERO_WORD
  }

  function IdentityEntry(k: nat, t: nat, open: bool): Word {
    if k == 0 && t == 0 then ZERO_WORD else EntryInit(k * WORDS + t).(user := open)
  }

  function IdentityTable(k: nat, open: bool): Frame {
    seq(WORDS, t requires 0 <= t < WORDS => IdentityEntry(k, t, open))
  }

  function BootFrame(f: nat, open: bool): Frame {
    if f == 1 then seq(WORDS, k requires 0 <= k < WORDS => BootEntry(k, open))
    else if KERNEL_TABLE <= f < KERNEL_TABLE + KERNEL_DIRS then IdentityTable(f - KERNEL_TABLE, open)
    else ZeroFrame()
  }

  function BootMem(n: nat, open: bool): Mem
    requires KERNEL_FRAMES < n
  {
    Mem(seq(n, f requires 0 <= f < n => BootFrame(f, open)),
        seq(n, f => if f < KERNEL_FRAMES then 1 else 0), n - KERNEL_FRAMES)
  }

  lemma BootIsConsistent(n: nat, open: bool)
    requires KERNEL_FRAMES < n <= MAX_FRAMES
    ensures Inv(BootMem(n, open), {1})
  {
    var m := BootMem(n, open);
    forall s | InUse({1}, s) ensures !Live(m, s) {
      assert !At(m, s.dir, s.d).present;
    }
    forall f: nat | f < n ensures CountIsExact(m, {1}, f) {
      forall s | s in Refs(m, Slots({1}), f) ensures false { InSlots({1}, s); }
      assert Refs(m, Slots({1}), f) == {};
    }
    forall s, r ensures SamePlace(m, {1}, s, r) { }
    FreeAbove(m.count, KERNEL_FRAMES, n);
  }

  // ---------------------------------------------------------------- a process that cannot exit

  ghost function ForkedCount(m: Mem, p: nat, f: nat): u8
    requires f < |m.count|
  {
    var n := m.count[f] + |Refs(m, Slots({p}), f)|;
    if n < 0x100 then n else 0xFF
  }

  ghost function ForkedMem(m: Mem, p: nat, c: nat): Mem
    requires p < |m.frames|
  {
    Mem(seq(|m.frames|, f requires 0 <= f < |m.frames| => ForkedFrame(m, p, c, f)),
        seq(|m.count|, f requires 0 <= f < |m.count| => ForkedCount(m, p, f)), m.free)
  }

  lemma ForkedMemIs(m: Mem, dirs: set<nat>, p: nat, c: nat)
    requires Inv(m, dirs) && p in dirs && |dirs| < TASK_NR && FreeKernelPage(dirs, c)
    ensures p < |m.frames| && Forked(m, ForkedMem(m, p, c), p, c)
  {
    assert KernelHalf(m, p);
    forall f: nat | f < |m.count| ensures m.count[f] + |Refs(m, Slots({p}), f)| < 0x100 {
      if f >= KERNEL_FRAMES { CountBound(m, dirs, f); } else { assert CountIsExact(m, dirs, f); }
      OneRefPerProcess(m, dirs, p, f);
    }
  }

  /** Memory with two free frames, one page linked, and a fork: the assertion in put_page stops
      the exit of either process. */
  lemma ExitFails() returns (m: Mem, p: nat, c: nat)
    ensures Inv(m, {p, c}) && m.free == 0 && !CanExit(m, p) && !CanExit(m, c)
  {
    hide Inv, LinkMem, ForkedMem, Forked, CanExit;
    p, c := 1, 6;
    var m0 := BootMem(KERNEL_FRAMES + 2, false);
    BootIsConsistent(KERNEL_FRAMES + 2, false);
    UserIndices(USER_EXEC_ADDR);
    assert !At(m0, 1, DIdx(USER_EXEC_ADDR)).present;
    LinkKeeps(m0, {1}, 1, USER_EXEC_ADDR);
    var m1 := LinkMem(m0, 1, USER_EXEC_ADDR);
    ForkedMemIs(m1, {1}, 1, 6);
    m := ForkedMem(m1, 1, 6);
    ForkKeeps(m1, m, {1}, 1, 6);
    assert {1} + {6} == {1, 6};
    ForkedIsStuck(m1, m, {1}, 1, 6, USER_EXEC_ADDR);
    ForkedFree(m1, m, 1, 6);
  }

  lemma ForkedFree(m: Mem, m': Mem, p: nat, c: nat)
    requires Forked(m, m', p, c)
    ensures m'.free == m.free
  {
  }
}
