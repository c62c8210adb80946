/** Page tables as the processor and the kernel address them: translation through the
    recursive mapping, and the specification of link, unlink and copy-on-write by
    virtual address. */
module PageTables {
  import opened Words
  import opened Memory
  import opened CopyOnWrite
  import opened PageMapping
  import opened ForkExit

  const PDE_MASK := 0xFFC00000
  const DIRECTORY := 0xFFFFF000          // get_pde
  const USER_EXEC_ADDR := 0x1000000
  const USER_STACK_TOP := 0x10000000
  const USER_STACK_BOTTOM := 0x10000000 - 0x200000

  function DIdx(v: nat): nat { v / 0x400000 % 1024 }
  function TIdx(v: nat): nat { v / 0x1000 % 1024 }
  function Off(v: nat): nat { v % 0x1000 / 4 }

  /** PAGE(IDX(v)). */
  function PageStart(v: nat): nat { v - v % 0x1000 }

  /** get_entry: the address at which the page-table entry of `v` appears. */
  function EntryAddr(v: nat): nat { PDE_MASK + DIdx(v) * 0x1000 + TIdx(v) * 4 }

  // The translation done by the processor for directory `p`.
  function TableFrame(m: Mem, p: nat, v: nat): nat { At(m, p, DIdx(v)).index }
  function PageFrame(m: Mem, p: nat, v: nat): nat { At(m, TableFrame(m, p, v), TIdx(v)).index }

  function SlotOf(p: nat, v: nat): Slot { Slot(p, DIdx(v), TIdx(v)) }
  function PageOf(v: nat): Page { Page(DIdx(v), TIdx(v)) }
  function TableSlotOf(p: nat, v: nat): Slot { Slot(p, DIdx(v), -1) }

  /** The processor lets user code read at address `v`: both entries on the way are present and
      have the user bit; and write there: both have the write bit too. */
  predicate Readable(m: Mem, p: nat, v: nat) {
    Live(m, SlotOf(p, v)) && Entry(m, TableSlotOf(p, v)).user && Entry(m, SlotOf(p, v)).user
  }

  predicate Writable(m: Mem, p: nat, v: nat) {
    Readable(m, p, v) && Entry(m, TableSlotOf(p, v)).write && Entry(m, SlotOf(p, v)).write
  }

  predicate UserAddress(v: nat) { USER_EXEC_ADDR <= v < USER_STACK_TOP }

  lemma EntryAddrIndices(v: nat)
    ensures DIdx(EntryAddr(v)) == 1023 && TIdx(EntryAddr(v)) == DIdx(v) && Off(EntryAddr(v)) == TIdx(v)
  {
    AddrIndices(1023, DIdx(v), TIdx(v));
    hide DIdx, TIdx, Off;
    assert EntryAddr(v) == 1023 * 0x400000 + DIdx(v) * 0x1000 + TIdx(v) * 4;
  }

  lemma AddrIndices(d: nat, t: nat, w: nat)
    requires d < 1024 && t < 1024 && w < 1024
    ensures var a := d * 0x400000 + t * 0x1000 + w * 4; DIdx(a) == d && TIdx(a) == t && Off(a) == w
  {
  }

  lemma UserIndices(v: nat)
    requires UserAddress(v)
    ensures KERNEL_DIRS <= DIdx(v) < USER_DIRS
  {
  }

  /** In every state the memory manager can be in, user code can read each page its process has
      mapped. */
  lemma MappedIsReadable(m: Mem, dirs: set<nat>, p: nat, v: nat)
    requires Inv(m, dirs) && p in dirs && UserAddress(v)
    ensures Readable(m, p, v) <==> Live(m, SlotOf(p, v))
  {
    UserIndices(v);
    if Live(m, SlotOf(p, v)) {
      assert InUse(dirs, SlotOf(p, v)) && InUse(dirs, TableSlotOf(p, v)) && Live(m, TableSlotOf(p, v));
    }
  }

  /** Through the self map, each application of EntryAddr climbs one level: the entry of
      a page is a word of its table, the entry of that word is a word of the directory,
      and the entry of that one is the self map itself. */
  lemma RecursiveMap(m: Mem, p: nat, v: nat)
    requires KernelHalf(m, p)
    ensures PageFrame(m, p, EntryAddr(v)) == At(m, p, DIdx(v)).index && Off(EntryAddr(v)) == TIdx(v)
    ensures PageFrame(m, p, EntryAddr(EntryAddr(v))) == p && Off(EntryAddr(EntryAddr(v))) == DIdx(v)
    ensures var e3 := EntryAddr(EntryAddr(EntryAddr(v)));
      PageFrame(m, p, e3) == p && Off(e3) == SELF
  {
    EntryAddrIndices(v);
    EntryAddrIndices(EntryAddr(v));
    EntryAddrIndices(EntryAddr(EntryAddr(v)));
  }

  /** The windows the self map opens on the tables and on the directory. */
  lemma Windows(m: Mem, p: nat, d: nat)
    requires At(m, p, SELF) == EntryInit(p) && d < WORDS
    ensures TableFrame(m, p, PDE_MASK + d * 0x1000) == p
    ensures PageFrame(m, p, PDE_MASK + d * 0x1000) == At(m, p, d).index
    ensures TableFrame(m, p, DIRECTORY + d * 4) == p && PageFrame(m, p, DIRECTORY + d * 4) == p
    ensures Off(DIRECTORY + d * 4) == d
  {
    assert DIRECTORY == 1023 * 0x400000 + 1023 * 0x1000;
  }

  lemma NewTableInSteps(m: Mem, dirs: set<nat>, p: nat, d: nat)
    requires Inv(m, dirs) && p in dirs && KERNEL_DIRS <= d < USER_DIRS && m.free > 0
    requires Fresh(m) < |m.count|
    ensures var m1 := SetWord(Take(m, Fresh(m)), p, d, EntryInit(Fresh(m)));
      KernelHalf(m1, p) && At(m1, p, d).index == Fresh(m) && KERNEL_FRAMES <= Fresh(m) &&
      NewTable(m, p, d) == m1.(frames := m1.frames[Fresh(m) := ZeroFrame()])
  {
    assert KernelHalf(m, p);
    FreshFrame(m, dirs);
  }

  lemma CopiedInSteps(m: Mem, p: nat, src: nat, g: nat)
    requires Dimensions(m) && KernelHalf(m, p) && KERNEL_FRAMES <= g < |m.count|
    requires TableFrame(m, p, src) < |m.frames| && TableFrame(m, p, src) != KERNEL_TABLE
    requires KERNEL_FRAMES <= PageFrame(m, p, src) < |m.frames|
    ensures var m2 := SetWord(Take(m, g), KERNEL_TABLE, 0, EntryInit(g));
      KernelHalf(m2, p) && TableFrame(m2, p, src) == TableFrame(m, p, src) &&
      PageFrame(m2, p, src) == PageFrame(m, p, src) && PageFrame(m2, p, 0) == g &&
      TableFrame(m2, p, 0) == KERNEL_TABLE &&
      var m3 := m2.(frames := m2.frames[g := m2.frames[PageFrame(m, p, src)]]);
      KernelHalf(m3, p) && At(m3, KERNEL_TABLE, 0) == EntryInit(g) &&
      SetWord(m3, KERNEL_TABLE, 0, EntryInit(g).(present := false)) == Copied(m, PageFrame(m, p, src), g)
  {
    var m2 := SetWord(Take(m, g), KERNEL_TABLE, 0, EntryInit(g));
    var from := PageFrame(m, p, src);
    var m3 := m2.(frames := m2.frames[g := m2.frames[from]]);
    forall f, i ensures At(m2, f, i) == if f == KERNEL_TABLE && i == 0 then EntryInit(g) else At(m, f, i) { }
    var m4 := SetWord(m3, KERNEL_TABLE, 0, EntryInit(g).(present := false));
    assert m4.frames[KERNEL_TABLE] == Copied(m, from, g).frames[KERNEL_TABLE];
    assert m4.frames == Copied(m, from, g).frames;
  }

  /** What copy_on_write of address `v` does down to `level`: 2 is the table, 3 the page. */
  function CowLevels(m: Mem, p: nat, v: nat, level: nat): Mem {
    if level < 2 then m
    else if level == 2 then Cow(m, TableSlotOf(p, v))
    else Cow(Cow(m, TableSlotOf(p, v)), SlotOf(p, v))
  }

  /** The address copy_on_write is called with after `n` calls on itself. */
  function Climb(v: nat, n: nat): nat {
    if n == 0 then v else EntryAddr(Climb(v, n - 1))
  }

  /** The slot whose entry level 2 or 3 deals with. */
  function SlotAt(p: nat, v: nat, level: nat): Slot {
    if level == 3 then SlotOf(p, v) else TableSlotOf(p, v)
  }

  /** How many frames copy_on_write takes down to `level`. */
  function LevelNeed(m: Mem, p: nat, v: nat, level: nat): nat {
    if level < 2 then 0
    else CowNeed(m, TableSlotOf(p, v)) + if level == 2 then 0 else CowNeed(m, SlotOf(p, v))
  }

  /** Both levels of copy_on_write together: nothing any process reads changes, and the
      two write bits on the way to the page are set. */
  lemma CowLevelsKeep(m: Mem, dirs: set<nat>, p: nat, v: nat, level: nat)
    requires Inv(m, dirs) && p in dirs && UserAddress(v) && 2 <= level <= 3 && m.free >= LevelNeed(m, p, v, level)
    requires Live(m, SlotAt(p, v, level))
    ensures var m' := CowLevels(m, p, v, level);
      Inv(m', dirs) && Machine(m', dirs) == Machine(m, dirs) &&
      |m'.frames| == |m.frames| && m'.free == m.free - LevelNeed(m, p, v, level) &&
      (forall s :: InUse(dirs, s) ==> Live(m', s) == Live(m, s)) &&
      Entry(m', TableSlotOf(p, v)).write && Entry(m', SlotAt(p, v, level)).write
  {
    var m1 := Cow(m, TableSlotOf(p, v));
    assert m1 == CowLevels(m, p, v, 2);
    UserIndices(v);
    CowKeeps(m, dirs, TableSlotOf(p, v));
    if level == 3 {
      CowKeepsNeed(m, dirs, TableSlotOf(p, v), SlotOf(p, v));
      CowPageKeeps(m1, dirs, p, v);
      assert forall s :: InUse(dirs, s) ==> Live(Cow(m1, SlotOf(p, v)), s) == Live(m1, s);
    }
  }

  lemma CowPageKeeps(m: Mem, dirs: set<nat>, p: nat, v: nat)
    requires Inv(m, dirs) && p in dirs && UserAddress(v) && m.free >= CowNeed(m, SlotOf(p, v))
    requires Live(m, SlotOf(p, v)) && Entry(m, TableSlotOf(p, v)).write
    ensures var m' := Cow(m, SlotOf(p, v));
      Inv(m', dirs) && Machine(m', dirs) == Machine(m, dirs) &&
      |m'.frames| == |m.frames| && m'.free == m.free - CowNeed(m, SlotOf(p, v)) &&
      (forall s :: InUse(dirs, s) ==> Live(m', s) == Live(m, s)) &&
      Entry(m', TableSlotOf(p, v)).write && Entry(m', SlotOf(p, v)).write
  {
    UserIndices(v);
    CowKeeps(m, dirs, SlotOf(p, v));
  }

  lemma SamePageIndices(v: nat)
    ensures DIdx(PageStart(v)) == DIdx(v) && TIdx(PageStart(v)) == TIdx(v)
  {
    var k := v / 0x1000;
    var q, r := k / 1024, k % 1024;
    assert PageStart(v) == q * 0x400000 + r * 0x1000;
    assert v == q * 0x400000 + r * 0x1000 + v % 0x1000;
  }

  /** Level 2 or 3: where the address argument and its entry lead. */
  lemma LevelTranslation(m: Mem, dirs: set<nat>, p: nat, v: nat, level: nat)
    requires Inv(m, dirs) && p in dirs && UserAddress(v) && 2 <= level <= 3
    requires Live(m, SlotAt(p, v, level))
    ensures var s, vaddr, entry := SlotAt(p, v, level), Climb(v, 3 - level), EntryAddr(Climb(v, 3 - level));
      InUse(dirs, s) && Slotted(m, s) &&
      At(m, p, DIdx(vaddr)).present &&
      TableFrame(m, p, entry) < |m.frames| && PageFrame(m, p, entry) == EntryFrame(m, s) && Off(entry) == EntryIndex(s) &&
      TableFrame(m, p, vaddr) < |m.frames| && TableFrame(m, p, vaddr) != KERNEL_TABLE &&
      PageFrame(m, p, vaddr) == Target(m, s)
  {
    UserIndices(v);
    assert KernelHalf(m, p);
    EntryAddrIndices(v);
    EntryAddrIndices(EntryAddr(v));
    RecursiveMap(m, p, v);
    SlotIsSlotted(m, dirs, SlotAt(p, v, level));
    assert Climb(v, 0) == v && Climb(v, 1) == EntryAddr(v);
    var table := TableSlotOf(p, v);
    assert InUse(dirs, table) && Live(m, table);
  }

  /** The directory entry consulted at each level is present. */
  lemma EntryPresent(m: Mem, dirs: set<nat>, p: nat, v: nat, level: nat)
    requires Inv(m, dirs) && p in dirs && UserAddress(v) && 1 <= level <= 3
    requires level >= 2 ==> Live(m, TableSlotOf(p, v))
    requires level == 3 ==> Live(m, SlotOf(p, v))
    ensures At(m, p, DIdx(Climb(v, 3 - level))).present
    ensures EntryAddr(Climb(v, 3 - level)) == Climb(v, 4 - level)
    ensures level == 1 ==> Climb(v, 3) == EntryAddr(EntryAddr(EntryAddr(v)))
    ensures level == 1 ==> TableFrame(m, p, Climb(v, 3)) == p
  {
    assert KernelHalf(m, p);
    EntryAddrIndices(v);
    EntryAddrIndices(EntryAddr(v));
    EntryAddrIndices(EntryAddr(EntryAddr(v)));
    assert Climb(v, 1) == EntryAddr(v);
    assert Climb(v, 2) == EntryAddr(EntryAddr(v));
    assert Climb(v, 3) == EntryAddr(Climb(v, 2));
  }

  /** What one call of copy_on_write relies on, and what it establishes. */
  lemma CowStep(m: Mem, dirs: set<nat>, p: nat, v: nat, level: nat)
    requires Inv(m, dirs) && p in dirs && UserAddress(v) && 1 <= level <= 3 && m.free >= LevelNeed(m, p, v, level)
    requires level >= 2 ==> Live(m, TableSlotOf(p, v))
    requires level == 3 ==> Live(m, SlotOf(p, v))
    ensures KernelHalf(m, p) && At(m, p, DIdx(Climb(v, 3 - level))).present
    ensures EntryAddr(Climb(v, 3 - level)) == Climb(v, 4 - level)
    ensures level == 1 ==>
      TableFrame(m, p, Climb(v, 3)) == p && PageFrame(m, p, Climb(v, 3)) == p && At(m, p, Off(Climb(v, 3))).write
    ensures level >= 2 ==>
      var m1 := CowLevels(m, p, v, level - 1);
      m.free >= LevelNeed(m, p, v, level - 1) && m1.free >= CowNeed(m1, SlotAt(p, v, level)) && Live(m1, SlotAt(p, v, level)) &&
      CowLevels(m, p, v, level) == Cow(m1, SlotAt(p, v, level)) && Inv(CowLevels(m, p, v, level), dirs)
  {
    assert KernelHalf(m, p);
    EntryPresent(m, dirs, p, v, level);
    if level == 1 {
      RecursiveMap(m, p, v);
    } else {
      UserIndices(v);
      CowLevelsKeep(m, dirs, p, v, level);
      if level == 3 {
        CowLevelsKeep(m, dirs, p, v, 2);
        CowKeepsNeed(m, dirs, TableSlotOf(p, v), SlotOf(p, v));
      }
    }
  }

  /** Copying a page moves nothing in the directory `p`, so the entry stays where it was. */
  lemma CopyKeepsTranslation(m: Mem, dirs: set<nat>, p: nat, v: nat, level: nat)
    requires Inv(m, dirs) && p in dirs && UserAddress(v) && 2 <= level <= 3 && m.free > 0
    requires Live(m, SlotAt(p, v, level)) && Target(m, SlotAt(p, v, level)) < |m.frames|
    requires Fresh(m) < |m.count|
    ensures var s, entry := SlotAt(p, v, level), EntryAddr(Climb(v, 3 - level));
      var m1 := Copied(m, Target(m, s), Fresh(m));
      TableFrame(m1, p, entry) == TableFrame(m, p, entry) && PageFrame(m1, p, entry) == PageFrame(m, p, entry) &&
      EntryFrame(m, s) != Fresh(m) && EntryFrame(m, s) != KERNEL_TABLE
  {
    var s := SlotAt(p, v, level);
    UserIndices(v);
    LevelTranslation(m, dirs, p, v, level);
    FreshFrame(m, dirs);
    EntryFrameNotFresh(m, dirs, s);
    assert KernelHalf(m, p);
    EntryAddrIndices(v);
    EntryAddrIndices(EntryAddr(v));
    var m1 := Copied(m, Target(m, s), Fresh(m));
    assert m1.frames[p] == m.frames[p];
    if level == 3 {
      assert InUse(dirs, TableSlotOf(p, v)) && Live(m, TableSlotOf(p, v));
    }
  }

  /** After the copy the entry is still at the same word, and rewriting it completes Cow. */
  lemma CopiedEntry(m: Mem, p: nat, s: Slot, entry: nat, c: Mem)
    requires Slotted(m, s) && !Entry(m, s).write && m.count[Target(m, s)] > 1 && Fresh(m) < |m.count|
    requires KERNEL_TABLE < |m.frames| && Target(m, s) < |m.frames|
    requires c == Copied(m, Target(m, s), Fresh(m)).(count := m.count[Fresh(m) := 1][Target(m, s) := m.count[Target(m, s)] - 1])
    requires var c' := Copied(m, Target(m, s), Fresh(m));
      TableFrame(c', p, entry) == TableFrame(m, p, entry) && PageFrame(c', p, entry) == PageFrame(m, p, entry)
    ensures TableFrame(c, p, entry) == TableFrame(m, p, entry) && PageFrame(c, p, entry) == PageFrame(m, p, entry)
    ensures EntryFrame(m, s) < |c.frames|
    ensures SetWord(c, EntryFrame(m, s), EntryIndex(s), Entry(m, s).(index := Fresh(m), write := true)) == Cow(m, s)
  {
    var c' := Copied(m, Target(m, s), Fresh(m));
    assert forall f, i :: At(c, f, i) == At(c', f, i);
    assert m.count[Fresh(m)] == 0;
  }

  /** link_page on a page that is not mapped, from the point where its table exists. */
  function LinkFrom(m: Mem, p: nat, v: nat): Mem {
    var m1 := Cow(m, TableSlotOf(p, v));
    var table := At(m1, p, DIdx(v)).index;
    if Dimensions(m1) && Fresh(m1) < |m1.count| && table < |m1.frames| then NewPage(m1, table, TIdx(v)) else m1
  }

  /** What the frame handed to a newly linked page held before. */
  function Leftover(m: Mem, p: nat, v: nat): Frame {
    var m1 := Cow(m, TableSlotOf(p, v));
    FrameAt(m1, Fresh(m1))
  }

  lemma LinkFromKeeps(m: Mem, dirs: set<nat>, p: nat, v: nat)
    requires Inv(m, dirs) && p in dirs && UserAddress(v)
    requires Live(m, TableSlotOf(p, v)) && !Live(m, SlotOf(p, v))
    requires m.free > CowNeed(m, TableSlotOf(p, v))
    ensures var m' := LinkFrom(m, p, v);
      Inv(m', dirs) && m'.free == m.free - CowNeed(m, TableSlotOf(p, v)) - 1 && |m'.frames| == |m.frames| &&
      Live(m', SlotOf(p, v)) && Entry(m', TableSlotOf(p, v)).write && Entry(m', SlotOf(p, v)).write &&
      Machine(m', dirs) == WithPage(Machine(m, dirs), p, PageOf(v), Leftover(m, p, v))
    ensures var m1 := Cow(m, TableSlotOf(p, v));
      var table := At(m1, p, DIdx(v)).index;
      Inv(m1, dirs) && KERNEL_FRAMES <= Fresh(m1) < |m1.count| && KERNEL_FRAMES <= table < |m1.frames| && Live(m1, TableSlotOf(p, v)) &&
      LinkFrom(m, p, v) == NewPage(m1, table, TIdx(v)) && m1.free > 0
  {
    UserIndices(v);
    var own := TableSlotOf(p, v);
    CowKeeps(m, dirs, own);
    var m1 := Cow(m, own);
    FreshFrame(m1, dirs);
    Referenced(m1, dirs, own);
    NewPageKeeps(m1, dirs, p, DIdx(v), TIdx(v));
  }

  /** With its table in place, the entry of page `v` is word TIdx(v) of that table. */
  lemma LinkEntry(m: Mem, dirs: set<nat>, p: nat, v: nat)
    requires Inv(m, dirs) && p in dirs && UserAddress(v) && Live(m, TableSlotOf(p, v))
    ensures TableFrame(m, p, EntryAddr(v)) == p && p < |m.frames|
    ensures PageFrame(m, p, EntryAddr(v)) == At(m, p, DIdx(v)).index < |m.frames|
    ensures Off(EntryAddr(v)) == TIdx(v)
    ensures At(m, At(m, p, DIdx(v)).index, TIdx(v)).present <==> Live(m, SlotOf(p, v))
  {
    UserIndices(v);
    assert KernelHalf(m, p);
    EntryAddrIndices(v);
    RecursiveMap(m, p, v);
    Referenced(m, dirs, TableSlotOf(p, v));
  }

  lemma SameTranslation(m: Mem, m': Mem, p: nat, v: nat)
    requires m'.frames == m.frames
    ensures TableFrame(m', p, v) == TableFrame(m, p, v) && PageFrame(m', p, v) == PageFrame(m, p, v)
  {
  }

  /** The state in which link_page looks at the entry: the table is there, created if need be. */
  function WithTableOf(m: Mem, p: nat, d: nat): Mem {
    if At(m, p, d).present || !Dimensions(m) || Fresh(m) >= |m.count| || p >= |m.frames| || d >= WORDS then m
    else NewTable(m, p, d)
  }

  lemma WithTable(m: Mem, dirs: set<nat>, p: nat, v: nat)
    requires Inv(m, dirs) && p in dirs && UserAddress(v) && (At(m, p, DIdx(v)).present || m.free > 0)
    ensures KernelHalf(m, p) && p < |m.frames| && (!At(m, p, DIdx(v)).present ==> Fresh(m) < |m.count|)
    ensures var m' := WithTableOf(m, p, DIdx(v));
      Inv(m', dirs) && Machine(m', dirs) == Machine(m, dirs) && |m'.frames| == |m.frames| &&
      Live(m', TableSlotOf(p, v)) && Live(m', SlotOf(p, v)) == Live(m, SlotOf(p, v)) &&
      if At(m, p, DIdx(v)).present then m' == m else m'.free == m.free - 1 && CowNeed(m', TableSlotOf(p, v)) == 0
  {
    UserIndices(v);
    assert KernelHalf(m, p);
    if !At(m, p, DIdx(v)).present {
      FreshFrame(m, dirs);
      NewTableKeeps(m, dirs, p, DIdx(v));
    }
  }

  /** link_page. */
  function LinkMem(m: Mem, p: nat, v: nat): Mem {
    var m1 := WithTableOf(m, p, DIdx(v));
    if Live(m1, SlotOf(p, v)) then m1 else LinkFrom(m1, p, v)
  }

  /** How many frames link_page takes: none for a mapped page; else one for the page, and one
      for its table if it is missing or others reach it too. */
  function LinkNeed(m: Mem, p: nat, v: nat): nat {
    if Live(m, SlotOf(p, v)) then 0
    else if !At(m, p, DIdx(v)).present then 2
    else 1 + CowNeed(m, TableSlotOf(p, v))
  }

  /** link_page keeps the invariant, leaves a mapped page alone, and otherwise gives this
      one process one more page, writable, whose contents are arbitrary. */
  lemma LinkKeeps(m: Mem, dirs: set<nat>, p: nat, v: nat)
    requires Inv(m, dirs) && p in dirs && UserAddress(v) && m.free >= LinkNeed(m, p, v)
    ensures var m' := LinkMem(m, p, v);
      Inv(m', dirs) && Readable(m', p, v) && m'.free == m.free - LinkNeed(m, p, v) && |m'.frames| == |m.frames|
    ensures Live(m, SlotOf(p, v)) ==> LinkMem(m, p, v) == m
    ensures !Live(m, SlotOf(p, v)) ==>
      var m' := LinkMem(m, p, v);
      Writable(m', p, v) &&
      Machine(m', dirs) == WithPage(Machine(m, dirs), p, PageOf(v), Leftover(WithTableOf(m, p, DIdx(v)), p, v))
  {
    WithTable(m, dirs, p, v);
    var m1 := WithTableOf(m, p, DIdx(v));
    if !Live(m1, SlotOf(p, v)) {
      LinkFromKeeps(m1, dirs, p, v);
    }
    MappedIsReadable(LinkMem(m, p, v), dirs, p, v);
  }

  /** unlink_page. */
  function UnlinkMem(m: Mem, p: nat, v: nat): Mem {
    if !Live(m, SlotOf(p, v)) then m
    else
      var m1 := Cow(m, TableSlotOf(p, v));
      if Slotted(m1, SlotOf(p, v)) && m1.count[Target(m1, SlotOf(p, v))] > 0 then Unmap(m1, SlotOf(p, v)) else m1
  }

  /** What unlink_page needs: a frame for the table if others reach it too; and put_page asserts
      that a frame is free in the end, which the page itself is only if no one else reaches it. */
  predicate CanUnlink(m: Mem, p: nat, v: nat) {
    Live(m, SlotOf(p, v)) && Target(m, SlotOf(p, v)) < |m.count| ==>
      m.free >= CowNeed(m, TableSlotOf(p, v)) &&
      (m.free > CowNeed(m, TableSlotOf(p, v)) || m.count[Target(m, SlotOf(p, v))] == 1)
  }

  /** The table of a mapped page, made private: the page can be unmapped. */
  lemma UnlinkReady(m: Mem, dirs: set<nat>, p: nat, v: nat)
    requires Inv(m, dirs) && p in dirs && UserAddress(v) && m.free >= CowNeed(m, TableSlotOf(p, v)) && Live(m, SlotOf(p, v))
    ensures var m1, s := Cow(m, TableSlotOf(p, v)), SlotOf(p, v);
      Inv(m1, dirs) && Machine(m1, dirs) == Machine(m, dirs) && |m1.frames| == |m.frames| &&
      Live(m1, TableSlotOf(p, v)) && Entry(m1, TableSlotOf(p, v)).write && Live(m1, s) && Slotted(m1, s) &&
      m1.free == m.free - CowNeed(m, TableSlotOf(p, v)) &&
      KERNEL_FRAMES <= Target(m1, s) == Target(m, s) < |m1.count| == |m.count| &&
      m1.count[Target(m1, s)] == m.count[Target(m, s)] > 0 && m1.free < |m1.count| - 1
  {
    UserIndices(v);
    CowKeeps(m, dirs, TableSlotOf(p, v));
    CowKeepsTarget(m, dirs, TableSlotOf(p, v), SlotOf(p, v));
    var m1 := Cow(m, TableSlotOf(p, v));
    SlotIsSlotted(m1, dirs, SlotOf(p, v));
    Referenced(m1, dirs, SlotOf(p, v));
    assert CountIsExact(m1, dirs, 0) && CountIsExact(m1, dirs, 1);
    FewerFree(m1.count, 2, |m1.count|);
  }

  /** unlink_page takes the page from this one process. */
  lemma UnlinkKeeps(m: Mem, dirs: set<nat>, p: nat, v: nat)
    requires Inv(m, dirs) && p in dirs && UserAddress(v) && (Live(m, SlotOf(p, v)) ==> m.free >= CowNeed(m, TableSlotOf(p, v)))
    ensures var m' := UnlinkMem(m, p, v);
      Inv(m', dirs) && !Live(m', SlotOf(p, v)) && |m'.frames| == |m.frames| &&
      Machine(m', dirs) == WithoutPage(Machine(m, dirs), p, PageOf(v))
  {
    UserIndices(v);
    if Live(m, SlotOf(p, v)) {
      UnlinkReady(m, dirs, p, v);
      UnmapKeeps(Cow(m, TableSlotOf(p, v)), dirs, SlotOf(p, v));
    } else {
      SpaceAt(m, dirs, SlotOf(p, v));
      NothingToRemove(Machine(m, dirs), p, PageOf(v));
    }
  }

  /** The assertion at the end of put_page holds in unlink_page exactly under that condition. */
  lemma UnlinkAsserts(m: Mem, dirs: set<nat>, p: nat, v: nat)
    requires Inv(m, dirs) && p in dirs && UserAddress(v) && Live(m, SlotOf(p, v)) && m.free >= CowNeed(m, TableSlotOf(p, v))
    ensures UnlinkMem(m, p, v).free > 0 <==> CanUnlink(m, p, v)
  {
    UserIndices(v);
    UnlinkReady(m, dirs, p, v);
    Referenced(m, dirs, SlotOf(p, v));
  }

  lemma NothingToRemove(a: map<nat, Space>, p: nat, g: Page)
    requires p in a && g !in a[p]
    ensures WithoutPage(a, p, g) == a
  {
    assert a[p] - {g} == a[p];
  }

  lemma SameAgain(a: map<nat, Space>, p: nat, g: Page)
    requires p in a && g in a[p]
    ensures WithPage(a, p, g, a[p][g]) == a
  {
    assert Put(a[p], g, a[p][g]) == a[p];
  }

  lemma TwiceReplaced(a: map<nat, Space>, p: nat, g: Page, fr: Frame, fr': Frame)
    ensures WithPage(WithPage(a, p, g, fr), p, g, fr') == WithPage(a, p, g, fr')
  {
    if p in a {
      assert Put(Put(a[p], g, fr), g, fr') == Put(a[p], g, fr');
    }
  }

  lemma SpaceAt(m: Mem, dirs: set<nat>, s: Slot)
    requires InUse(dirs, s) && s.t >= 0
    ensures s.dir in Machine(m, dirs) && (Page(s.d, s.t) in Machine(m, dirs)[s.dir] <==> Live(m, s))
    ensures Live(m, s) ==> Machine(m, dirs)[s.dir][Page(s.d, s.t)] == FrameAt(m, Target(m, s))
  {
    assert Page(s.d, s.t) in Pages();
  }

  /** A user store at address `v`, with the faults it may cause on the way. */
  function StoreMem(m: Mem, p: nat, v: nat, w: Word): Mem {
    var m2 := BeforeStoreMem(m, p, v);
    if Target(m2, SlotOf(p, v)) < |m2.frames| && Off(v) < WORDS then StoreWord(m2, SlotOf(p, v), Off(v), w) else m2
  }

  /** What the page shows just before the store. */
  function BeforeStore(m: Mem, p: nat, v: nat): Frame {
    if Live(m, SlotOf(p, v)) then FrameAt(m, Target(m, SlotOf(p, v)))
    else Leftover(WithTableOf(m, p, DIdx(v)), p, v)
  }

  /** A mapping whose two write bits are set is left alone by copy_on_write. */
  lemma WritableStays(m: Mem, p: nat, v: nat)
    requires Entry(m, TableSlotOf(p, v)).write && Entry(m, SlotOf(p, v)).write
    ensures CowLevels(m, p, v, 3) == m && LevelNeed(m, p, v, 3) == 0
  {
  }

  /** The state in which the store finally succeeds. */
  function BeforeStoreMem(m: Mem, p: nat, v: nat): Mem {
    if Live(m, SlotOf(p, v)) then CowLevels(m, p, v, 3) else LinkMem(m, p, v)
  }

  /** How many frames the faults of a store take. */
  function StoreNeed(m: Mem, p: nat, v: nat): nat {
    if Live(m, SlotOf(p, v)) then LevelNeed(m, p, v, 3) else LinkNeed(m, p, v)
  }

  lemma BeforeStoreKeeps(m: Mem, dirs: set<nat>, p: nat, v: nat)
    requires Inv(m, dirs) && p in dirs && UserAddress(v) && m.free >= StoreNeed(m, p, v)
    ensures var m2, s := BeforeStoreMem(m, p, v), SlotOf(p, v);
      Inv(m2, dirs) && |m2.frames| == |m.frames| && Writable(m2, p, v) && Target(m2, s) < |m2.frames| &&
      FrameAt(m2, Target(m2, s)) == BeforeStore(m, p, v) &&
      Machine(m2, dirs) == WithPage(Machine(m, dirs), p, PageOf(v), BeforeStore(m, p, v))
  {
    UserIndices(v);
    var s, g := SlotOf(p, v), PageOf(v);
    if Live(m, s) {
      CowLevelsKeep(m, dirs, p, v, 3);
      SpaceAt(m, dirs, s);
      SameAgain(Machine(m, dirs), p, g);
    } else {
      SpaceAt(m, dirs, s);
      LinkKeeps(m, dirs, p, v);
    }
    SpaceAt(BeforeStoreMem(m, p, v), dirs, s);
    MappedIsReadable(BeforeStoreMem(m, p, v), dirs, p, v);
    Referenced(BeforeStoreMem(m, p, v), dirs, s);
  }

  /** A user store, faults included, changes one word of one page of one process. */
  lemma StoreMemKeeps(m: Mem, dirs: set<nat>, p: nat, v: nat, w: Word)
    requires Inv(m, dirs) && p in dirs && UserAddress(v) && m.free >= StoreNeed(m, p, v)
    ensures var m' := StoreMem(m, p, v, w);
      Inv(m', dirs) && |m'.frames| == |m.frames| && Off(v) < WORDS &&
      Machine(m', dirs) == WithPage(Machine(m, dirs), p, PageOf(v), BeforeStore(m, p, v)[Off(v) := w])
  {
    UserIndices(v);
    BeforeStoreKeeps(m, dirs, p, v);
    var m2, s := BeforeStoreMem(m, p, v), SlotOf(p, v);
    StoreKeeps(m2, dirs, s, Off(v), w);
    TwiceReplaced(Machine(m, dirs), p, PageOf(v), BeforeStore(m, p, v), BeforeStore(m, p, v)[Off(v) := w]);
  }

  /** link_page is called with the address of the page. */
  lemma SamePageLink(m: Mem, p: nat, v: nat)
    requires UserAddress(v)
    ensures UserAddress(PageStart(v)) && PageStart(PageStart(v)) == PageStart(v)
    ensures LinkMem(m, p, PageStart(v)) == LinkMem(m, p, v) && LinkNeed(m, p, PageStart(v)) == LinkNeed(m, p, v)
  {
    SamePageIndices(v);
  }
}
