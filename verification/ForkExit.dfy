/** copy_pde and free_pde: sharing every table and page with a new directory, and
    giving all of a directory's references back. */
module ForkExit {
  import opened Words
  import opened Memory
  import opened CopyOnWrite

  // ---------------------------------------------------------------- counts are bounded by the number of processes

  lemma AtMostOnePerDirectory(R: set<Slot>, dirs: set<nat>)
    requires forall s :: s in R ==> s.dir in dirs
    requires forall s, r :: s in R && r in R && s.dir == r.dir ==> s == r
    ensures |R| <= |dirs|
  {
    if R != {} {
      var s :| s in R;
      forall r | r in R - {s} ensures r.dir in dirs - {s.dir} { }
      AtMostOnePerDirectory(R - {s}, dirs - {s.dir});
    }
  }

  /** No reference count exceeds the number of processes, so with at most TASK_NR of
      them the byte counters are far from wrapping. */
  lemma CountBound(m: Mem, dirs: set<nat>, f: nat)
    requires Inv(m, dirs) && f < |m.count|
    ensures f >= KERNEL_FRAMES ==> m.count[f] <= |dirs|
    ensures |dirs| <= TASK_NR ==> m.count[f] <= TASK_NR
  {
    assert CountIsExact(m, dirs, f);
    if f >= KERNEL_FRAMES {
      var R := Refs(m, Slots(dirs), f);
      forall s | s in R ensures InUse(dirs, s) { InSlots(dirs, s); }
      forall s, r | s in R && r in R && s.dir == r.dir ensures s == r { assert SamePlace(m, dirs, s, r); }
      AtMostOnePerDirectory(R, dirs);
    }
  }

  /** Fork adds at most one reference to a frame. */
  lemma OneRefPerProcess(m: Mem, dirs: set<nat>, p: nat, f: nat)
    requires Inv(m, dirs) && p in dirs
    ensures |Refs(m, Slots({p}), f)| <= 1
  {
    var R := Refs(m, Slots({p}), f);
    forall s | s in R ensures InUse(dirs, s) { InSlots({p}, s); }
    forall s, r | s in R && r in R && s.dir == r.dir ensures s == r { assert SamePlace(m, dirs, s, r); }
    AtMostOnePerDirectory(R, {p});
  }

  // ---------------------------------------------------------------- fork

  ghost function TablesOf(m: Mem, p: nat): set<nat> {
    set d | KERNEL_DIRS <= d < USER_DIRS && At(m, p, d).present :: At(m, p, d).index
  }

  /** An entry as fork leaves it. */
  function ReadOnly(w: Word): Word {
    if w.present && !w.shared then w.(write := false) else w
  }

  function ReadOnlyDir(fr: Frame): Frame {
    seq(WORDS, k requires 0 <= k < WORDS =>
      if KERNEL_DIRS <= k < USER_DIRS && fr[k].present then fr[k].(write := false) else fr[k])
  }

  function ReadOnlyTable(fr: Frame): Frame {
    seq(WORDS, k requires 0 <= k < WORDS => ReadOnly(fr[k]))
  }

  ghost function ForkedFrame(m: Mem, p: nat, c: nat, f: nat): Frame
    requires p < |m.frames| && f < |m.frames|
  {
    if f == c then ReadOnlyDir(m.frames[p])[SELF := EntryInit(c)]
    else if f == p then ReadOnlyDir(m.frames[p])
    else if f in TablesOf(m, p) then ReadOnlyTable(m.frames[f])
    else m.frames[f]
  }

  /** Memory after copy_pde of `p` into the kernel page `c`: the new directory has the
      same tables, everything shared is read-only, and every path of `p` counts twice. */
  ghost predicate Forked(m: Mem, m': Mem, p: nat, c: nat) {
    p < |m.frames| && c < |m.frames| &&
    |m'.frames| == |m.frames| && |m'.count| == |m.count| && m'.free == m.free &&
    (forall f: nat :: f < |m.frames| ==> m'.frames[f] == ForkedFrame(m, p, c, f)) &&
    (forall f: nat :: f < |m.count| ==> m'.count[f] == m.count[f] + |Refs(m, Slots({p}), f)|)
  }

  predicate FreeKernelPage(dirs: set<nat>, c: nat) {
    c < KERNEL_FRAMES && c !in {2, 3, 4, 5} && c !in dirs
  }

  lemma TableInBounds(m: Mem, dirs: set<nat>, p: nat, d: int)
    requires Inv(m, dirs) && p in dirs && KERNEL_DIRS <= d < USER_DIRS && At(m, p, d).present
    ensures KERNEL_FRAMES <= At(m, p, d).index < |m.count| && At(m, p, d).index in TablesOf(m, p)
  {
    assert InUse(dirs, Slot(p, d, -1)) && Live(m, Slot(p, d, -1));
  }

  /** Old and new paths after a fork: where they lead and which are writable. */
  lemma ForkedPath(m: Mem, m': Mem, dirs: set<nat>, p: nat, c: nat, s: Slot)
    requires Inv(m, dirs) && p in dirs && FreeKernelPage(dirs, c) && Forked(m, m', p, c)
    requires InUse(dirs + {c}, s)
    ensures var r := if s.dir == c then s.(dir := p) else s;
      InUse(dirs, r) && Live(m', s) == Live(m, r) &&
      (Live(m, r) ==>
        Target(m', s) == Target(m, r) &&
        (Entry(m', s) == Entry(m, r) || Entry(m', s) == Entry(m, r).(write := false)) &&
        (r.dir == p ==> !Entry(m', s).write))
  {
    var r := if s.dir == c then s.(dir := p) else s;
    assert InUse(dirs, r) && KernelHalf(m, r.dir) && KernelHalf(m, p);
    forall f | f in TablesOf(m, p) ensures KERNEL_FRAMES <= f {
      var d :| KERNEL_DIRS <= d < USER_DIRS && At(m, p, d).present && At(m, p, d).index == f;
      TableInBounds(m, dirs, p, d);
    }
    if At(m, r.dir, r.d).present {
      TableInBounds(m, dirs, r.dir, r.d);
    }
  }

  lemma CopiedSlots(R: set<Slot>, p: nat, c: nat)
    requires forall s :: s in R ==> s.dir == p
    ensures |set s | s in R :: s.(dir := c)| == |R|
  {
    if R != {} {
      var x :| x in R;
      CopiedSlots(R - {x}, p, c);
      var C, C' := (set s | s in R :: s.(dir := c)), (set s | s in R - {x} :: s.(dir := c));
      assert C == C' + {x.(dir := c)};
      forall s | s in R - {x} ensures s.(dir := c) != x.(dir := c) { assert s.dir == x.dir; }
    }
  }

  lemma ForkedCounts(m: Mem, m': Mem, dirs: set<nat>, p: nat, c: nat, f: nat)
    requires Inv(m, dirs) && p in dirs && FreeKernelPage(dirs, c) && Forked(m, m', p, c)
    ensures |Refs(m', Slots(dirs + {c}), f)| == |Refs(m, Slots(dirs), f)| + |Refs(m, Slots({p}), f)|
  {
    var Old, Own := Refs(m, Slots(dirs), f), Refs(m, Slots({p}), f);
    var New := set s | s in Own :: s.(dir := c);
    forall s ensures s in Own ==> s.dir == p { InSlots({p}, s); }
    CopiedSlots(Own, p, c);
    forall s ensures s in Refs(m', Slots(dirs + {c}), f) <==> s in Old + New {
      InSlots(dirs + {c}, s);
      InSlots(dirs, s);
      if InUse(dirs + {c}, s) {
        ForkedPath(m, m', dirs, p, c, s);
      }
      var r := s.(dir := p);
      InSlots({p}, r);
      if s in New {
        var q :| q in Own && q.(dir := c) == s;
        assert q == r;
      }
      if s.dir == c && r in Own {
        assert r.(dir := c) == s;
      }
    }
    assert Refs(m', Slots(dirs + {c}), f) == Old + New;
    forall s | s in Old ensures s !in New { InSlots(dirs, s); }
    assert Old !! New;
  }

  lemma ForkedWriteBits(m: Mem, m': Mem, dirs: set<nat>, p: nat, c: nat)
    requires Inv(m, dirs) && p in dirs && FreeKernelPage(dirs, c) && Forked(m, m', p, c)
    requires InBounds(m', dirs + {c})
    ensures WriteExclusive(m', dirs + {c})
  {
    forall s | InUse(dirs + {c}, s) && Live(m', s) && Entry(m', s).write ensures m'.count[Target(m', s)] == 1 {
      ForkedPath(m, m', dirs, p, c, s);
      assert InUse(dirs, s) && s.dir != p;
      var f := Target(m, s);
      Referenced(m, dirs, s);
      forall r | r in Refs(m, Slots({p}), f) ensures false {
        InSlots({p}, r);
        InSlots(dirs, r);
        assert CountIsExact(m, dirs, f);
        OneRef(Refs(m, Slots(dirs), f), r, s);
      }
      assert Refs(m, Slots({p}), f) == {};
    }
  }

  /** Every process, the new one included, keeps the pages its paths lead to. */
  lemma ForkedSpace(m: Mem, m': Mem, dirs: set<nat>, p: nat, c: nat, q: nat)
    requires Inv(m, dirs) && p in dirs && FreeKernelPage(dirs, c) && Forked(m, m', p, c)
    requires q in dirs + {c}
    ensures SpaceOf(m', q) == SpaceOf(m, if q == c then p else q)
  {
    var o := if q == c then p else q;
    forall g | g in Pages()
      ensures Live(m', Slot(q, g.d, g.t)) == Live(m, Slot(o, g.d, g.t))
      ensures Live(m, Slot(o, g.d, g.t)) ==>
        FrameAt(m', Target(m', Slot(q, g.d, g.t))) == FrameAt(m, Target(m, Slot(o, g.d, g.t)))
    {
      var r := Slot(o, g.d, g.t);
      assert InUse(dirs + {c}, Slot(q, g.d, g.t)) && InUse(dirs, r);
      ForkedPath(m, m', dirs, p, c, Slot(q, g.d, g.t));
      if Live(m, r) {
        Referenced(m, dirs, r);
        DataIsNoTable(m, dirs, p, r);
      }
    }
  }

  lemma DataIsNoTable(m: Mem, dirs: set<nat>, p: nat, r: Slot)
    requires Inv(m, dirs) && p in dirs && InUse(dirs, r) && Live(m, r) && r.t >= 0
    ensures Target(m, r) !in TablesOf(m, p)
  {
    forall d | KERNEL_DIRS <= d < USER_DIRS && At(m, p, d).present ensures At(m, p, d).index != Target(m, r) {
      assert InUse(dirs, Slot(p, d, -1)) && Live(m, Slot(p, d, -1));
      assert SamePlace(m, dirs, Slot(p, d, -1), r);
    }
  }

  lemma ForkedKernelHalf(m: Mem, m': Mem, dirs: set<nat>, p: nat, c: nat, q: nat)
    requires Inv(m, dirs) && p in dirs && FreeKernelPage(dirs, c) && Forked(m, m', p, c)
    requires q in dirs + {c}
    ensures KernelHalf(m', q)
  {
    assert KernelHalf(m, p);
    if q in dirs { assert KernelHalf(m, q); }
    forall f | f in TablesOf(m, p) ensures KERNEL_FRAMES <= f {
      var d :| KERNEL_DIRS <= d < USER_DIRS && At(m, p, d).present && At(m, p, d).index == f;
      TableInBounds(m, dirs, p, d);
    }
  }

  /** fork keeps the invariant, and the child reads exactly what the parent reads, as if
      every page had been copied. */
  lemma ForkKeeps(m: Mem, m': Mem, dirs: set<nat>, p: nat, c: nat)
    requires Inv(m, dirs) && p in dirs && FreeKernelPage(dirs, c) && Forked(m, m', p, c)
    ensures Inv(m', dirs + {c})
    ensures Machine(m', dirs + {c}) == Machine(m, dirs)[c := SpaceOf(m, p)]
  {
    forall s | InUse(dirs + {c}, s) && Live(m', s)
      ensures KERNEL_FRAMES <= Target(m', s) < |m'.count|
      ensures Entry(m', s).user && !Entry(m', s).shared && !Entry(m', s).readonly
    {
      ForkedPath(m, m', dirs, p, c, s);
    }
    ForkedWriteBits(m, m', dirs, p, c);
    forall s, r ensures SamePlace(m', dirs + {c}, s, r) {
      if InUse(dirs + {c}, s) && InUse(dirs + {c}, r) {
        ForkedPath(m, m', dirs, p, c, s);
        ForkedPath(m, m', dirs, p, c, r);
        assert SamePlace(m, dirs, if s.dir == c then s.(dir := p) else s, if r.dir == c then r.(dir := p) else r);
      }
    }
    forall q | q in dirs + {c} ensures KernelHalf(m', q) { ForkedKernelHalf(m, m', dirs, p, c, q); }
    forall q | q in dirs + {c} ensures SpaceOf(m', q) == SpaceOf(m, if q == c then p else q) {
      ForkedSpace(m, m', dirs, p, c, q);
    }
    ForkedCounted(m, m', dirs, p, c);
  }

  lemma ForkedCounted(m: Mem, m': Mem, dirs: set<nat>, p: nat, c: nat)
    requires Inv(m, dirs) && p in dirs && FreeKernelPage(dirs, c) && Forked(m, m', p, c)
    ensures Counted(m', dirs + {c}) && m'.free == FreeFrames(m'.count)
  {
    forall f: nat | f < |m'.count|
      ensures CountIsExact(m', dirs + {c}, f)
      ensures m'.count[f] == 0 <==> m.count[f] == 0
    {
      assert CountIsExact(m, dirs, f);
      ForkedCounts(m, m', dirs, p, c, f);
      SubRefs(m, dirs, p, f);
      if f < KERNEL_FRAMES {
        NoKernelRefs(m, dirs, p, f);
      }
    }
    FreeBelowEqual(m.count, m'.count, |m.count|);
  }

  lemma SubRefs(m: Mem, dirs: set<nat>, p: nat, f: nat)
    requires p in dirs
    ensures Refs(m, Slots({p}), f) <= Refs(m, Slots(dirs), f)
    ensures Refs(m, Slots(dirs), f) == {} ==> |Refs(m, Slots({p}), f)| == 0
  {
    forall s | s in Refs(m, Slots({p}), f) ensures s in Refs(m, Slots(dirs), f) {
      InSlots({p}, s);
      InSlots(dirs, s);
    }
  }

  lemma NoKernelRefs(m: Mem, dirs: set<nat>, p: nat, f: nat)
    requires Inv(m, dirs) && p in dirs && f < KERNEL_FRAMES
    ensures Refs(m, Slots({p}), f) == {}
  {
    forall s | s in Refs(m, Slots({p}), f) ensures false {
      InSlots({p}, s);
      assert InUse(dirs, s);
    }
  }

  // ---------------------------------------------------------------- exit

  /** Memory after free_pde of `p`: contents untouched, every path of `p` given back. */
  ghost predicate Exited(m: Mem, m': Mem, p: nat) {
    m'.frames == m.frames && |m'.count| == |m.count| &&
    (forall f: nat :: f < |m.count| ==> m'.count[f] == m.count[f] - |Refs(m, Slots({p}), f)|) &&
    m'.free == FreeFrames(m'.count)
  }

  lemma ExitedRefs(m: Mem, m': Mem, dirs: set<nat>, p: nat, f: nat)
    requires p in dirs && m'.frames == m.frames
    ensures |Refs(m', Slots(dirs - {p}), f)| == |Refs(m, Slots(dirs), f)| - |Refs(m, Slots({p}), f)|
  {
    var Old, Own, Rest := Refs(m, Slots(dirs), f), Refs(m, Slots({p}), f), Refs(m', Slots(dirs - {p}), f);
    forall s
      ensures s in Own <==> s in Old && s.dir == p
      ensures s in Rest <==> s in Old && s.dir != p
    {
      InSlots(dirs, s);
      InSlots({p}, s);
      InSlots(dirs - {p}, s);
    }
    assert Old == Own + Rest && Own !! Rest;
  }

  lemma ExitedCounted(m: Mem, m': Mem, dirs: set<nat>, p: nat)
    requires Inv(m, dirs) && p in dirs && Exited(m, m', p)
    ensures Counted(m', dirs - {p})
  {
    forall f: nat | f < |m'.count| ensures CountIsExact(m', dirs - {p}, f) {
      assert CountIsExact(m, dirs, f);
      ExitedRefs(m, m', dirs, p, f);
      if f < KERNEL_FRAMES {
        NoKernelRefs(m, dirs, p, f);
      }
    }
  }

  /** Paths depend on the frames only. */
  lemma SameFrames(m: Mem, m': Mem, s: Slot)
    requires m'.frames == m.frames
    ensures Live(m', s) == Live(m, s) && Entry(m', s) == Entry(m, s)
  {
  }

  lemma ExitedSpace(m: Mem, m': Mem, q: nat)
    requires m'.frames == m.frames
    ensures KernelHalf(m, q) ==> KernelHalf(m', q)
    ensures SpaceOf(m', q) == SpaceOf(m, q)
  {
    forall g | g in Pages()
      ensures Live(m', Slot(q, g.d, g.t)) == Live(m, Slot(q, g.d, g.t)) && Entry(m', Slot(q, g.d, g.t)) == Entry(m, Slot(q, g.d, g.t))
    {
      SameFrames(m, m', Slot(q, g.d, g.t));
    }
  }

  lemma ExitedPaths(m: Mem, m': Mem, dirs: set<nat>, p: nat)
    requires Inv(m, dirs) && p in dirs && Exited(m, m', p)
    ensures InBounds(m', dirs - {p}) && OnePlace(m', dirs - {p}) && OpenToUsers(m', dirs - {p})
    ensures forall q :: q in dirs - {p} ==> KernelHalf(m', q) && SpaceOf(m', q) == SpaceOf(m, q)
  {
    hide Live, Entry, KernelHalf, SpaceOf, Counted, WriteExclusive;
    forall s | InUse(dirs - {p}, s)
      ensures InUse(dirs, s) && Live(m', s) == Live(m, s) && Entry(m', s) == Entry(m, s)
    {
      SameFrames(m, m', s);
    }
    forall s, r ensures SamePlace(m', dirs - {p}, s, r) { assert SamePlace(m, dirs, s, r); }
    forall q | q in dirs - {p} ensures KernelHalf(m', q) && SpaceOf(m', q) == SpaceOf(m, q) {
      assert KernelHalf(m, q);
      ExitedSpace(m, m', q);
    }
  }

  /** exit keeps the invariant, and the other processes read what they read before. */
  lemma ExitKeeps(m: Mem, m': Mem, dirs: set<nat>, p: nat)
    requires Inv(m, dirs) && p in dirs && Exited(m, m', p)
    ensures Inv(m', dirs - {p})
    ensures Machine(m', dirs - {p}) == Machine(m, dirs) - {p}
  {
    ExitedCounted(m, m', dirs, p);
    ExitedPaths(m, m', dirs, p);
    forall s | InUse(dirs - {p}, s) && Live(m', s) && Entry(m', s).write ensures m'.count[Target(m', s)] == 1 {
      assert InUse(dirs, s) && Live(m, s) && Entry(m, s) == Entry(m', s);
      Referenced(m, dirs, s);
      ExitedRefs(m, m', dirs, p, Target(m, s));
      InSlots(dirs - {p}, s);
      assert CountIsExact(m, dirs, Target(m, s));
      assert s in Refs(m', Slots(dirs - {p}), Target(m, s));
    }
    assert Machine(m', dirs - {p}) == Machine(m, dirs) - {p};
  }

  /** Once every process is gone all frames above the kernel's are free again. */
  lemma AllGone(m: Mem)
    requires Inv(m, {})
    ensures m.free == |m.count| - KERNEL_FRAMES
  {
    forall f: nat | f < |m.count| ensures m.count[f] == 0 <==> f >= KERNEL_FRAMES {
      assert CountIsExact(m, {}, f);
      forall s | s in Refs(m, Slots({}), f) ensures false { InSlots({}, s); }
      assert Refs(m, Slots({}), f) == {};
    }
    FreeAbove(m.count, KERNEL_FRAMES, |m.count|);
  }

  lemma {:induction false} FreeAbove(count: seq<u8>, k: nat, n: nat)
    requires k <= n <= |count| && forall f: nat :: f < |count| ==> (count[f] == 0 <==> f >= k)
    ensures FreeBelow(count, n) == n - k
  {
    if n > k {
      FreeAbove(count, k, n - 1);
    } else {
      NoneFree(count, n);
    }
  }

  lemma {:induction false} NoneFree(count: seq<u8>, n: nat)
    requires n <= |count| && forall f: nat :: f < n ==> count[f] > 0
    ensures FreeBelow(count, n) == 0
  {
    if n > 0 {
      NoneFree(count, n - 1);
    }
  }

  /** The first `k` frames are in use. */
  lemma {:induction false} FewerFree(count: seq<u8>, k: nat, n: nat)
    requires k <= n <= |count| && forall f: nat :: f < k ==> count[f] > 0
    ensures FreeBelow(count, n) <= n - k
  {
    if n > k {
      FewerFree(count, k, n - 1);
    } else {
      NoneFree(count, n);
    }
  }
}
