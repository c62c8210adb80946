/** The memory manager as the kernel runs it: arrays updated in place, and page-table
    entries reached through the recursive mapping of the running directory. */
module MemoryManager {
  import opened Words
  import opened Memory
  import opened CopyOnWrite
  import opened PageMapping
  import opened ForkExit
  import opened PageTables
  import opened DirectoryLoops

  datatype Outcome = Resumed | Segfault | Panic

  /** page_fault returns, and the store goes on. */
  predicate Resolved(v: nat, present: bool, brk: nat) {
    UserAddress(v) && (present || v < brk || v >= USER_STACK_BOTTOM)
  }

  class MemoryManager {
    const startPage: nat
    var frames: array<Frame>
    var memoryMap: array<u8>           // memory_map
    var freePages: int
    var cr3: nat                 // directory of the running process
    var dirs: set<nat>           // directories of the tasks in task_table

    function State(): Mem
      reads this, frames, memoryMap
    {
      Mem(frames[..], memoryMap[..], freePages)
    }

    ghost predicate Consistent()
      reads this, frames, memoryMap
    {
      Inv(State(), dirs) && |dirs| <= TASK_NR && startPage <= KERNEL_FRAMES
    }

    /** In addition, a process is running. */
    ghost predicate Valid()
      reads this, frames, memoryMap
    {
      Consistent() && cr3 in dirs
    }

    /** A frame can be allocated, and the running directory is in order. */
    ghost predicate Ready()
      reads this, frames, memoryMap
    {
      Dimensions(State()) && KernelHalf(State(), cr3) && startPage <= KERNEL_FRAMES && freePages > 0 &&
      KERNEL_FRAMES <= Fresh(State()) < memoryMap.Length
    }

    method GetPage() returns (page: nat)
      requires Ready()
      modifies this`freePages, memoryMap
      ensures page == Fresh(old(State())) && KERNEL_FRAMES <= page < memoryMap.Length
      ensures State() == Take(old(State()), page)
    {
      ghost var m := State();
      for i := startPage to memoryMap.Length
        invariant State() == m && i <= Fresh(m)
      {
        if memoryMap[i] == 0 {
          memoryMap[i] := 1;
          assert freePages > 0;
          freePages := freePages - 1;
          assert memoryMap[..] == m.count[i := 1];
          return i;
        }
      }
      assert false;
    }

    /** put_page; its last assertion fails when no page is free and this one is shared. */
    method PutPage(page: nat)
      requires startPage <= page < memoryMap.Length && memoryMap[page] >= 1
      requires 0 <= freePages < memoryMap.Length - 1
      requires freePages > 0 || memoryMap[page] == 1
      modifies this`freePages, memoryMap
      ensures State() == Drop(old(State()), page)
    {
      memoryMap[page] := memoryMap[page] - 1;
      if memoryMap[page] == 0 {
        freePages := freePages + 1;
      }
      assert freePages > 0 && freePages < memoryMap.Length;
      assert memoryMap[..] == old(State()).count[page := old(memoryMap[page]) - 1];
    }

    /** A word at a virtual address, translated through the running directory. */
    method Load(v: nat) returns (w: Word)
      requires cr3 < frames.Length && TableFrame(State(), cr3, v) < frames.Length
      requires PageFrame(State(), cr3, v) < frames.Length
      ensures w == At(State(), PageFrame(State(), cr3, v), Off(v))
    {
      var table := frames[cr3][DIdx(v)].index;
      var page := frames[table][TIdx(v)].index;
      w := frames[page][Off(v)];
    }

    method Store(v: nat, w: Word)
      requires cr3 < frames.Length && TableFrame(State(), cr3, v) < frames.Length
      requires PageFrame(State(), cr3, v) < frames.Length
      modifies frames
      ensures State() == SetWord(old(State()), old(PageFrame(State(), cr3, v)), Off(v), w)
    {
      var table := frames[cr3][DIdx(v)].index;
      var page := frames[table][TIdx(v)].index;
      frames[page] := frames[page][Off(v) := w];
      assert frames[..] == old(State()).frames[page := old(State()).frames[page][Off(v) := w]];
    }
  
    /** The whole page at virtual address `v`. */
    method ReadPage(v: nat) returns (contents: Frame)
      requires cr3 < frames.Length && TableFrame(State(), cr3, v) < frames.Length
      requires PageFrame(State(), cr3, v) < frames.Length
      ensures contents == FrameAt(State(), PageFrame(State(), cr3, v))
    {
      var table := frames[cr3][DIdx(v)].index;
      contents := frames[frames[table][TIdx(v)].index];
    }

    /** memcpy or memset of the whole page at virtual address `v`. */
    method FillPage(v: nat, contents: Frame)
      requires cr3 < frames.Length && TableFrame(State(), cr3, v) < frames.Length
      requires PageFrame(State(), cr3, v) < frames.Length
      modifies frames
      ensures State() == old(State()).(frames := old(State()).frames[old(PageFrame(State(), cr3, v)) := contents])
    {
      var table := frames[cr3][DIdx(v)].index;
      var page := frames[table][TIdx(v)].index;
      frames[page] := contents;
      assert frames[..] == old(State()).frames[page := contents];
    }

    /** get_pte.  Without `create` the table must exist. */
    method GetPte(vaddr: nat, create: bool) returns (table: nat)
      requires Dimensions(State()) && KernelHalf(State(), cr3)
      requires At(State(), cr3, DIdx(vaddr)).present || (create && UserAddress(vaddr) && Valid() && freePages > 0)
      modifies this`freePages, memoryMap, frames
      ensures table == PDE_MASK + DIdx(vaddr) * 0x1000
      ensures old(At(State(), cr3, DIdx(vaddr)).present) ==> State() == old(State())
      ensures !old(At(State(), cr3, DIdx(vaddr)).present) ==>
        Fresh(old(State())) < |old(State()).count| && State() == NewTable(old(State()), cr3, DIdx(vaddr))
    {
      ghost var m, p := State(), cr3;
      var idx := DIdx(vaddr);
      var entry := DIRECTORY + idx * 4;
      table := PDE_MASK + idx * 0x1000;
      Windows(m, p, idx);
      var e := Load(entry);
      if !e.present {
        UserIndices(vaddr);
        FreshFrame(m, dirs);
        NewTableInSteps(m, dirs, p, idx);
        var page := GetPage();
        assert KernelHalf(State(), p);
        Windows(State(), p, idx);
        Store(entry, EntryInit(page));
        Windows(State(), p, idx);
        FillPage(table, ZeroFrame());
      }
    }
  
    /** get_entry. */
    method GetEntry(vaddr: nat, create: bool) returns (entry: nat)
      requires Dimensions(State()) && KernelHalf(State(), cr3)
      requires At(State(), cr3, DIdx(vaddr)).present || (create && UserAddress(vaddr) && Valid() && freePages > 0)
      modifies this`freePages, memoryMap, frames
      ensures entry == EntryAddr(vaddr)
      ensures old(At(State(), cr3, DIdx(vaddr)).present) ==> State() == old(State())
      ensures !old(At(State(), cr3, DIdx(vaddr)).present) ==>
        Fresh(old(State())) < |old(State()).count| && State() == NewTable(old(State()), cr3, DIdx(vaddr))
    {
      var table := GetPte(vaddr, create);
      entry := table + TIdx(vaddr) * 4;
    }

    /** copy_page: the page at virtual address `src` is copied into a new frame, which is
        mapped at address 0 meanwhile. */
    method CopyPage(src: nat) returns (page: nat)
      requires Ready()
      requires TableFrame(State(), cr3, src) < frames.Length && TableFrame(State(), cr3, src) != KERNEL_TABLE
      requires KERNEL_FRAMES <= PageFrame(State(), cr3, src) < frames.Length
      requires memoryMap[PageFrame(State(), cr3, src)] > 0
      modifies this`freePages, memoryMap, frames
      ensures page == Fresh(old(State())) && KERNEL_FRAMES <= page < memoryMap.Length
      ensures State() == Copied(old(State()), old(PageFrame(State(), cr3, src)), page)
    {
      ghost var m, p := State(), cr3;
      assert KernelHalf(m, p);
      page := GetPage();
      CopiedInSteps(m, p, src, page);
      assert KernelHalf(State(), p);
      var entry := MapScratch(page);
      var contents := ReadPage(src);
      FillPage(0, contents);
      UnmapScratch(entry);
    }

    /** The scratch mapping of address 0. */
    method MapScratch(page: nat) returns (entry: nat)
      requires Dimensions(State()) && KernelHalf(State(), cr3)
      modifies this`freePages, memoryMap, frames
      ensures entry == PDE_MASK
      ensures State() == SetWord(old(State()), KERNEL_TABLE, 0, EntryInit(page))
    {
      entry := GetPte(0, false);
      Windows(State(), cr3, 0);
      Store(entry, EntryInit(page));
    }

    method UnmapScratch(entry: nat)
      requires Dimensions(State()) && KernelHalf(State(), cr3) && entry == PDE_MASK
      modifies frames
      ensures State() ==
        SetWord(old(State()), KERNEL_TABLE, 0, At(old(State()), KERNEL_TABLE, 0).(present := false))
    {
      Windows(State(), cr3, 0);
      var e := Load(entry);
      Store(entry, e.(present := false));
    }

    /** copy_on_write.  Each call first treats the entry of its address, one level up;
        `v` is the address the outermost call started from. */
    method CopyOnWrite(vaddr: nat, level: nat, ghost v: nat)
      requires Valid() && UserAddress(v) && level <= 3 && vaddr == Climb(v, 3 - level)
      requires level >= 2 ==> Live(State(), TableSlotOf(cr3, v))
      requires level == 3 ==> Live(State(), SlotOf(cr3, v))
      requires freePages >= LevelNeed(State(), cr3, v, level)
      modifies this`freePages, memoryMap, frames
      ensures Valid() && State() == CowLevels(old(State()), cr3, v, level)
      decreases level
    {
      if level == 0 {
        return;
      }
      ghost var m, p := State(), cr3;
      CowStep(m, dirs, p, v, level);
      var entry := GetEntry(vaddr, false);
      CopyOnWrite(entry, level - 1, v);
      if level == 1 {
        // the self map is always writable
        var self := Load(entry);
        assert self.write;
      } else {
        CopyEntry(vaddr, entry, v, level);
      }
    }

    /** The rest of copy_on_write, at the entry of a table or of a page. */
    method CopyEntry(vaddr: nat, entry: nat, ghost v: nat, ghost level: nat)
      requires Valid() && UserAddress(v) && 2 <= level <= 3 && freePages >= CowNeed(State(), SlotAt(cr3, v, level))
      requires vaddr == Climb(v, 3 - level) && entry == EntryAddr(vaddr)
      requires Live(State(), SlotAt(cr3, v, level))
      modifies this`freePages, memoryMap, frames
      ensures State() == Cow(old(State()), SlotAt(cr3, v, level))
    {
      ghost var m, p, s := State(), cr3, SlotAt(cr3, v, level);
      UserIndices(v);
      LevelTranslation(m, dirs, p, v, level);
      Referenced(m, dirs, s);
      var e := Load(entry);
      if e.write {
        return;
      }
      assert memoryMap[e.index] > 0;
      if memoryMap[e.index] == 1 {
        Store(entry, e.(write := true));
      } else {
        FreshFrame(m, dirs);
        CopyKeepsTranslation(m, dirs, p, v, level);
        assert KernelHalf(m, p);
        MoveEntry(vaddr, entry, e, s);
      }
    }

    method DropReference(page: nat)
      requires page < memoryMap.Length && memoryMap[page] > 0
      modifies memoryMap
      ensures State() == old(State()).(count := old(State()).count[page := old(memoryMap[page]) - 1])
    {
      memoryMap[page] := memoryMap[page] - 1;
      assert memoryMap[..] == old(State()).count[page := old(memoryMap[page]) - 1];
    }

    /** The branch of copy_on_write that copies. */
    method MoveEntry(vaddr: nat, entry: nat, e: Word, ghost s: Slot)
      requires Ready()
      requires Slotted(State(), s) && e == Entry(State(), s) && !e.write && memoryMap[e.index] > 1 && e.index >= KERNEL_FRAMES
      requires TableFrame(State(), cr3, vaddr) < frames.Length && TableFrame(State(), cr3, vaddr) != KERNEL_TABLE
      requires PageFrame(State(), cr3, vaddr) == e.index
      requires PageFrame(State(), cr3, entry) == EntryFrame(State(), s) && Off(entry) == EntryIndex(s)
      requires TableFrame(State(), cr3, entry) < frames.Length && Fresh(State()) < memoryMap.Length
      requires var c := Copied(State(), e.index, Fresh(State()));
        TableFrame(c, cr3, entry) == TableFrame(State(), cr3, entry) &&
        PageFrame(c, cr3, entry) == PageFrame(State(), cr3, entry)
      modifies this`freePages, memoryMap, frames
      ensures State() == Cow(old(State()), s)
    {
      ghost var m := State();
      SamePageIndices(vaddr);
      var page := CopyPage(PageStart(vaddr));
      DropReference(e.index);
      CopiedEntry(m, cr3, s, entry, State());
      Store(entry, e.(index := page, write := true));
      assert memoryMap[page] > 0;
    }
  
    method LinkPage(vaddr: nat)
      requires Valid() && UserAddress(vaddr) && PageStart(vaddr) == vaddr && freePages >= LinkNeed(State(), cr3, vaddr)
      modifies this`freePages, memoryMap, frames
      ensures Valid() && State() == LinkMem(old(State()), cr3, vaddr) && Readable(State(), cr3, vaddr)
    {
      LinkKeeps(State(), dirs, cr3, vaddr);
      WithTable(State(), dirs, cr3, vaddr);
      var entry := GetEntry(vaddr, true);
      LinkEntry(State(), dirs, cr3, vaddr);
      var e := Load(entry);
      if !e.present {
        MapFresh(vaddr, entry);
      }
    }

    /** The rest of link_page, for an entry that is not present. */
    method MapFresh(vaddr: nat, entry: nat)
      requires Valid() && UserAddress(vaddr) && entry == EntryAddr(vaddr)
      requires Live(State(), TableSlotOf(cr3, vaddr)) && !Live(State(), SlotOf(cr3, vaddr))
      requires freePages > CowNeed(State(), TableSlotOf(cr3, vaddr))
      modifies this`freePages, memoryMap, frames
      ensures State() == LinkFrom(old(State()), cr3, vaddr)
    {
      ghost var m, p := State(), cr3;
      LinkFromKeeps(m, dirs, p, vaddr);
      assert Climb(vaddr, 1) == EntryAddr(Climb(vaddr, 0));
      CopyOnWrite(entry, 2, vaddr);
      ghost var m1 := State();
      assert m1 == Cow(m, TableSlotOf(p, vaddr));
      LinkEntry(m1, dirs, p, vaddr);
      assert KernelHalf(m1, p);
      var page := GetPage();
      assert State().frames == m1.frames;
      SameTranslation(m1, State(), p, entry);
      Store(entry, EntryInit(page));
    }
  
    /** unlink_page.  The condition is that of the assertion at the end of put_page: see
        UnlinkAsserts. */
    method UnlinkPage(vaddr: nat)
      requires Valid() && UserAddress(vaddr) && PageStart(vaddr) == vaddr && CanUnlink(State(), cr3, vaddr)
      modifies this`freePages, memoryMap, frames
      ensures Valid() && State() == UnlinkMem(old(State()), cr3, vaddr)
    {
      UnlinkKeeps(State(), dirs, cr3, vaddr);
      var mapped := IsMapped(vaddr);
      if mapped {
        var entry := EntryAddr(vaddr);
        UnmapEntry(vaddr, entry);
      }
    }

    /** The tests at the head of unlink_page: the table exists, and the page in it. */
    method IsMapped(vaddr: nat) returns (mapped: bool)
      requires Valid() && UserAddress(vaddr)
      modifies this`freePages, memoryMap, frames
      ensures State() == old(State()) && mapped == Live(State(), SlotOf(cr3, vaddr))
    {
      UserIndices(vaddr);
      assert KernelHalf(State(), cr3);
      Windows(State(), cr3, DIdx(vaddr));
      var e := Load(DIRECTORY + DIdx(vaddr) * 4);
      if !e.present {
        return false;
      }
      var entry := GetEntry(vaddr, false);
      LinkEntry(State(), dirs, cr3, vaddr);
      e := Load(entry);
      return e.present;
    }

    /** The rest of unlink_page, for an entry that is present. */
    method UnmapEntry(vaddr: nat, entry: nat)
      requires Valid() && UserAddress(vaddr) && entry == EntryAddr(vaddr) && CanUnlink(State(), cr3, vaddr)
      requires Live(State(), SlotOf(cr3, vaddr))
      modifies this`freePages, memoryMap, frames
      ensures State() == UnlinkMem(old(State()), cr3, vaddr)
    {
      ghost var m, p, s := State(), cr3, SlotOf(cr3, vaddr);
      UnlinkReady(m, dirs, p, vaddr);
      assert Climb(vaddr, 1) == EntryAddr(Climb(vaddr, 0));
      CopyOnWrite(entry, 2, vaddr);
      ghost var m1 := State();
      assert m1 == Cow(m, TableSlotOf(p, vaddr));
      LinkEntry(m1, dirs, p, vaddr);
      var e := Load(entry);
      Store(entry, e.(present := false));
      PutPage(e.index);
    }
  
    // ---------------------------------------------------------------- faults

    /** Whether the processor lets the running process reach, and write, address `v`. */
    method Probe(v: nat) returns (present: bool, writable: bool)
      requires Valid() && UserAddress(v)
      ensures present == Live(State(), SlotOf(cr3, v))
      ensures writable == Writable(State(), cr3, v)
    {
      UserIndices(v);
      assert KernelHalf(State(), cr3);
      var dentry := frames[cr3][DIdx(v)];
      if !dentry.present {
        return false, false;
      }
      LinkEntry(State(), dirs, cr3, v);
      var entry := frames[dentry.index][TIdx(v)];
      return entry.present, entry.present && dentry.user && entry.user && dentry.write && entry.write;
    }

    /** page_fault: `present` and `write` are the bits of the error code. */
    method PageFault(vaddr: nat, present: bool, write: bool, brk: nat) returns (outcome: Outcome)
      requires Valid() && (Resolved(vaddr, present, brk) ==> freePages >= StoreNeed(State(), cr3, vaddr))
      requires UserAddress(vaddr) ==> present == Live(State(), SlotOf(cr3, vaddr)) && (present ==> write)
      modifies this`freePages, memoryMap, frames
      ensures Valid()
      ensures outcome == Segfault <==> !UserAddress(vaddr)
      ensures outcome == Panic <==> UserAddress(vaddr) && !present && brk <= vaddr < USER_STACK_BOTTOM
      ensures State() == if outcome == Resumed then BeforeStoreMem(old(State()), cr3, vaddr) else old(State())
    {
      if vaddr < USER_EXEC_ADDR || vaddr >= USER_STACK_TOP {
        return Segfault;
      }
      if present {
        assert write;
        ProtectionFault(vaddr);
        return Resumed;
      }
      if vaddr < brk || vaddr >= USER_STACK_BOTTOM {
        MissingPage(vaddr);
        return Resumed;
      }
      return Panic;
    }

    /** page_fault on a page that is mapped but not writable. */
    method ProtectionFault(vaddr: nat)
      requires Valid() && UserAddress(vaddr) && freePages >= StoreNeed(State(), cr3, vaddr) && Live(State(), SlotOf(cr3, vaddr))
      modifies this`freePages, memoryMap, frames
      ensures Valid() && State() == BeforeStoreMem(old(State()), cr3, vaddr)
    {
      UserIndices(vaddr);
      assert InUse(dirs, SlotOf(cr3, vaddr));
      assert !Entry(State(), SlotOf(cr3, vaddr)).shared && !Entry(State(), SlotOf(cr3, vaddr)).readonly;
      CopyOnWrite(vaddr, 3, vaddr);
    }

    /** page_fault on a page that is not mapped: link_page, with the address of the page. */
    method MissingPage(vaddr: nat)
      requires Valid() && UserAddress(vaddr) && freePages >= StoreNeed(State(), cr3, vaddr) && !Live(State(), SlotOf(cr3, vaddr))
      modifies this`freePages, memoryMap, frames
      ensures Valid() && State() == BeforeStoreMem(old(State()), cr3, vaddr)
    {
      var page := PageStart(vaddr);
      SamePageLink(State(), cr3, vaddr);
      LinkPage(page);
    }

    /** A store of one word by the running process: the instruction is retried after each
        fault it causes. */
    method UserStore(v: nat, w: Word, brk: nat) returns (outcome: Outcome)
      requires Valid() && (Resolved(v, Live(State(), SlotOf(cr3, v)), brk) ==> freePages >= StoreNeed(State(), cr3, v))
      modifies this`freePages, memoryMap, frames
      ensures Valid()
      ensures outcome == Segfault <==> !UserAddress(v)
      ensures outcome == Panic <==>
        UserAddress(v) && !old(Live(State(), SlotOf(cr3, v))) && brk <= v < USER_STACK_BOTTOM
      ensures State() == if outcome == Resumed then StoreMem(old(State()), cr3, v, w) else old(State())
    {
      if !UserAddress(v) {
        outcome := PageFault(v, false, true, brk);
        return;
      }
      ghost var m := State();
      var present, writable := Probe(v);
      outcome := Resumed;
      if !writable {
        outcome := PageFault(v, present, true, brk);
        if outcome != Resumed {
          return;
        }
      } else {
        WritableStays(m, cr3, v);
      }
      BeforeStoreKeeps(m, dirs, cr3, v);
      StoreMemKeeps(m, dirs, cr3, v, w);
      assert State() == BeforeStoreMem(m, cr3, v);
      StoreThrough(v, w);
    }

    /** The store itself, once the mapping allows it. */
    method StoreThrough(v: nat, w: Word)
      requires Valid() && UserAddress(v) && Writable(State(), cr3, v) && Off(v) < WORDS
      modifies frames
      ensures Target(old(State()), SlotOf(cr3, v)) < |old(State()).frames|
      ensures State() == StoreWord(old(State()), SlotOf(cr3, v), Off(v), w)
    {
      UserIndices(v);
      assert KernelHalf(State(), cr3);
      assert InUse(dirs, SlotOf(cr3, v));
      LinkEntry(State(), dirs, cr3, v);
      var table := frames[cr3][DIdx(v)].index;
      var page := frames[table][TIdx(v)].index;
      frames[page] := frames[page][Off(v) := w];
      assert frames[..] == old(State()).frames[page := old(State()).frames[page][Off(v) := w]];
    }
  
    // ---------------------------------------------------------------- fork

    method AddReference(page: nat)
      requires page < memoryMap.Length && 0 < memoryMap[page] < 254
      modifies memoryMap
      ensures memoryMap[..] == old(memoryMap[..])[page := old(memoryMap[page]) + 1]
    {
      assert memoryMap[page] > 0;
      memoryMap[page] := memoryMap[page] + 1;
      assert memoryMap[page] < 255;
    }

    /** One entry of a table: read-only unless shared memory, and one more reference. */
    method ShareEntry(pte: nat, d: nat, t: nat)
      requires cr3 < frames.Length == memoryMap.Length && d < WORDS && t < WORDS
      requires frames[cr3][SELF] == EntryInit(cr3) && frames[cr3][d].index < frames.Length
      requires pte == PDE_MASK + d * 0x1000
      requires var e := frames[frames[cr3][d].index][t];
        e.present ==> e.index < memoryMap.Length && 0 < memoryMap[e.index] < 254
      modifies frames, memoryMap
      ensures var table := old(frames[cr3][d].index);
        var e := old(frames[frames[cr3][d].index][t]);
        frames[..] == old(frames[..])[table := old(frames[frames[cr3][d].index])[t := ReadOnly(e)]] &&
        memoryMap[..] ==
          if e.present then old(memoryMap[..])[e.index := old(memoryMap[..])[e.index] + 1] else old(memoryMap[..])
    {
      ghost var table := frames[cr3][d].index;
      TableWindow(State(), cr3, d, t);
      var e := Load(pte + t * 4);
      if !e.present {
        assert frames[table][t := e] == frames[table];
        return;
      }
      if !e.shared {
        Store(pte + t * 4, e.(write := false));
      } else {
        assert frames[table][t := e] == frames[table];
      }
      AddReference(e.index);
    }

    /** The inner loop of copy_pde: the table at directory slot `d` becomes read-only and
        each of its pages gains a reference. */
    method ShareTable(d: nat, ghost m: Mem)
      requires Shareable(m, cr3) && KERNEL_DIRS <= d < USER_DIRS && At(m, cr3, d).present
      requires KERNEL_FRAMES <= At(m, cr3, d).index < |m.frames| == frames.Length == memoryMap.Length
      requires cr3 < KERNEL_FRAMES && frames[cr3][SELF] == EntryInit(cr3)
      requires frames[cr3][d].index == At(m, cr3, d).index
      requires frames[frames[cr3][d].index] == m.frames[At(m, cr3, d).index]
      requires CountsShared(m, memoryMap[..], SlotsUpTo(cr3, d, 0))
      modifies frames, memoryMap
      ensures frames[..] == old(frames[..])[At(m, cr3, d).index := ReadOnlyTable(m.frames[At(m, cr3, d).index])]
      ensures CountsShared(m, memoryMap[..], SlotsBelow(cr3, d + 1))
    {
      hide Shareable, SlotsUpTo, SlotsBelow, CountsShared, PartTable, ReadOnlyTable, ReadOnly, EntryInit;
      ghost var p, table := cr3, At(m, cr3, d).index;
      ghost var fr := m.frames[table];
      var pte := PDE_MASK + d * 0x1000;
      TableStep(fr, 0);
      for t := 0 to WORDS
        invariant frames[..] == old(frames[..])[table := PartTable(fr, t)]
        invariant CountsShared(m, memoryMap[..], SlotsUpTo(p, d, t))
      {
        TableStep(fr, t);
        ShareEntryStep(m, memoryMap[..], p, d, t);
        assert frames[table] == PartTable(fr, t) && frames[p] == old(frames[p]);
        ShareEntry(pte, d, t);
      }
      SlotSteps(p, d, 0);
    }

    /** One present directory slot of copy_pde. */
    method ShareDirectorySlot(d: nat, ghost m: Mem)
      requires Shareable(m, cr3) && KERNEL_DIRS <= d < USER_DIRS && At(m, cr3, d).present
      requires KERNEL_FRAMES <= At(m, cr3, d).index < |m.frames| == frames.Length == memoryMap.Length
      requires cr3 < KERNEL_FRAMES && frames[cr3][SELF] == EntryInit(cr3) && frames[cr3][d] == At(m, cr3, d)
      requires frames[At(m, cr3, d).index] == m.frames[At(m, cr3, d).index]
      requires CountsShared(m, memoryMap[..], SlotsBelow(cr3, d))
      modifies frames, memoryMap
      ensures var e := At(m, cr3, d);
        frames[..] ==
          old(frames[..])[cr3 := old(frames[cr3])[d := e.(write := false)]][e.index := ReadOnlyTable(m.frames[e.index])]
      ensures CountsShared(m, memoryMap[..], SlotsBelow(cr3, d + 1))
    {
      ghost var s := Slot(cr3, d, -1);
      SlotSteps(cr3, d, 0);
      SlotsWithin(cr3, d, 0);
      assert Live(m, s) && Target(m, s) == At(m, cr3, d).index;
      ShareStep(m, memoryMap[..], cr3, SlotsBelow(cr3, d), s);
      var e := frames[cr3][d];
      frames[cr3] := frames[cr3][d := e.(write := false)];
      AddReference(e.index);
      ShareTable(d, m);
    }

    /** The loop of copy_pde. */
    method ShareDirectory()
      requires DistinctTables(State(), cr3) && Shareable(State(), cr3) && frames.Length == memoryMap.Length
      modifies memoryMap, frames
      ensures FramesShared(old(State()), frames[..], cr3, USER_DIRS)
      ensures CountsShared(old(State()), memoryMap[..], Slots({cr3}))
    {
      ghost var m, p := State(), cr3;
      FramesStart(m, p);
      NothingSeen(m, p);
      for d := KERNEL_DIRS to USER_DIRS
        invariant FramesShared(m, frames[..], p, d)
        invariant CountsShared(m, memoryMap[..], SlotsBelow(p, d))
      {
        FramesStep(m, frames[..], p, d);
        if frames[cr3][d].present {
          ShareDirectorySlot(d, m);
        } else {
          forall f: nat ensures Refs(m, SlotsBelow(p, d + 1), f) == Refs(m, SlotsBelow(p, d), f) {
            RefsSkip(m, p, d, f);
          }
        }
      }
    }

    /** copy_pde: the running process's directory is copied into the kernel page `c`. */
    method CopyPde(c: nat)
      requires Valid() && FreeKernelPage(dirs, c) && |dirs| < TASK_NR
      modifies this`dirs, memoryMap, frames
      ensures Forked(old(State()), State(), cr3, c) && dirs == old(dirs) + {c} && Valid()
    {
      ghost var m, p := State(), cr3;
      assert KernelHalf(m, p);
      TablesAreDistinct(m, dirs, p);
      IsShareable(m, dirs, p);
      ShareDirectory();
      ghost var m1 := State();
      frames[c] := frames[cr3];
      frames[c] := frames[c][SELF := EntryInit(c)];
      assert frames[..] == m1.frames[c := m1.frames[p][SELF := EntryInit(c)]];
      FramesDone(m, m1, State(), dirs, p, c);
      ForkKeeps(m, State(), dirs, p, c);
      dirs := dirs + {c};
    }
  
    // ---------------------------------------------------------------- exit

    /** put_page of a frame of user memory, within exit. */
    method ReturnPage(page: nat)
      requires startPage <= KERNEL_FRAMES <= page < memoryMap.Length && memoryMap[page] > 0
      requires FreeCounted(memoryMap[..], freePages) && (freePages > 0 || memoryMap[page] == 1)
      modifies this`freePages, memoryMap
      ensures memoryMap[..] == old(memoryMap[..])[page := old(memoryMap[page]) - 1]
      ensures FreeCounted(memoryMap[..], freePages) && freePages > 0
    {
      FreeCountedStep(memoryMap[..], freePages, page);
      PutPage(page);
    }

    /** One entry of a table in free_pde. */
    method ReturnEntry(pte: nat, d: nat, t: nat, ghost m: Mem)
      requires frames[..] == m.frames && Spare(memoryMap[..], freePages, FirstIn(m, cr3, d, t))
      requires cr3 < frames.Length == memoryMap.Length && d < WORDS && t < WORDS && startPage <= KERNEL_FRAMES
      requires frames[cr3][SELF] == EntryInit(cr3) && frames[cr3][d].index < frames.Length
      requires pte == PDE_MASK + d * 0x1000 && FreeCounted(memoryMap[..], freePages)
      requires var e := frames[frames[cr3][d].index][t];
        e.present ==> KERNEL_FRAMES <= e.index < memoryMap.Length && memoryMap[e.index] > 0
      modifies this`freePages, memoryMap
      ensures var e := frames[frames[cr3][d].index][t];
        memoryMap[..] ==
          if e.present then old(memoryMap[..])[e.index := old(memoryMap[..])[e.index] - 1] else old(memoryMap[..])
      ensures FreeCounted(memoryMap[..], freePages) && Spare(memoryMap[..], freePages, FirstIn(m, cr3, d, t + 1))
    {
      TableWindow(State(), cr3, d, t);
      var e := Load(pte + t * 4);
      if e.present {
        assert memoryMap[e.index] > 0;
        ReturnPage(e.index);
      }
    }

    /** The inner loop of free_pde. */
    method ReturnTable(d: nat, ghost m: Mem)
      requires Returnable(m, cr3) && startPage <= KERNEL_FRAMES
      requires frames[..] == m.frames && frames.Length == memoryMap.Length && cr3 < KERNEL_FRAMES
      requires KERNEL_DIRS <= d < USER_DIRS && At(m, cr3, d).present
      requires KERNEL_FRAMES <= At(m, cr3, d).index < |m.frames| && At(m, cr3, SELF) == EntryInit(cr3)
      requires CountsReturned(m, memoryMap[..], SlotsBelow(cr3, d)) && FreeCounted(memoryMap[..], freePages)
      requires Spare(memoryMap[..], freePages, FirstIn(m, cr3, d, 0))
      modifies this`freePages, memoryMap
      ensures CountsReturned(m, memoryMap[..], PagesUpTo(cr3, d, WORDS)) && FreeCounted(memoryMap[..], freePages)
      ensures Spare(memoryMap[..], freePages, FirstIn(m, cr3, d, WORDS))
    {
      hide Returnable, CountsReturned, FreeCounted, Spare, FirstIn, PagesUpTo, SlotsBelow;
      var pte := PDE_MASK + d * 0x1000;
      SlotSteps(cr3, d, 0);
      for t := 0 to WORDS
        invariant CountsReturned(m, memoryMap[..], PagesUpTo(cr3, d, t))
        invariant FreeCounted(memoryMap[..], freePages) && Spare(memoryMap[..], freePages, FirstIn(m, cr3, d, t))
      {
        ReturnEntryStep(m, memoryMap[..], cr3, d, t);
        assert frames[cr3][d] == At(m, cr3, d);
        ReturnEntry(pte, d, t, m);
      }
    }

    /** The outer loop of free_pde. */
    method ReturnDirectory()
      requires Returnable(State(), cr3) && DistinctTables(State(), cr3) && startPage <= KERNEL_FRAMES
      requires FreeCounted(memoryMap[..], freePages) && frames.Length == memoryMap.Length && CanExit(State(), cr3)
      modifies this`freePages, memoryMap
      ensures CountsReturned(old(State()), memoryMap[..], Slots({cr3})) && FreeCounted(memoryMap[..], freePages)
    {
      hide Returnable, DistinctTables, CountsReturned, FreeCounted, SlotsBelow, Slots, FirstBack, Spare;
      ghost var m := State();
      NothingSeen(m, cr3);
      for d := KERNEL_DIRS to USER_DIRS
        invariant frames[..] == m.frames
        invariant CountsReturned(m, memoryMap[..], SlotsBelow(cr3, d))
        invariant FreeCounted(memoryMap[..], freePages) && Spare(memoryMap[..], freePages, FirstBack(m, cr3, d))
      {
        ReturnDirectorySlot(d, m);
      }
    }

    /** An entry of the running directory, read through its window. */
    method ReadDirectory(d: nat) returns (dentry: Word)
      requires cr3 < frames.Length && d < WORDS && frames[cr3][SELF] == EntryInit(cr3)
      ensures dentry == frames[cr3][d]
    {
      Windows(State(), cr3, d);
      dentry := Load(DIRECTORY + d * 4);
    }

    /** One directory slot of free_pde. */
    method ReturnDirectorySlot(d: nat, ghost m: Mem)
      requires Returnable(m, cr3) && DistinctTables(m, cr3) && startPage <= KERNEL_FRAMES
      requires frames[..] == m.frames && frames.Length == memoryMap.Length && KERNEL_DIRS <= d < USER_DIRS
      requires CountsReturned(m, memoryMap[..], SlotsBelow(cr3, d)) && FreeCounted(memoryMap[..], freePages)
      requires Spare(memoryMap[..], freePages, FirstBack(m, cr3, d))
      modifies this`freePages, memoryMap
      ensures CountsReturned(m, memoryMap[..], SlotsBelow(cr3, d + 1)) && FreeCounted(memoryMap[..], freePages)
      ensures Spare(memoryMap[..], freePages, FirstBack(m, cr3, d + 1))
    {
      hide SlotsBelow;
      var dentry := ReadDirectory(d);
      if dentry.present {
        ReturnTable(d, m);
        ReturnTableStep(m, memoryMap[..], cr3, d);
        ReturnPage(dentry.index);
      } else {
        forall f: nat ensures Refs(m, SlotsBelow(cr3, d + 1), f) == Refs(m, SlotsBelow(cr3, d), f) {
          RefsSkip(m, cr3, d, f);
        }
      }
    }

    /** free_pde of the running process, after which directory `next` runs.  The condition is
        that of the assertion at the end of put_page: see ExitAsserts. */
    method FreePde(next: nat)
      requires Valid() && CanExit(State(), cr3)
      modifies this`dirs, this`cr3, this`freePages, memoryMap
      ensures Exited(old(State()), State(), old(cr3)) && dirs == old(dirs) - {old(cr3)} && cr3 == next
      ensures Consistent()
    {
      IsReturnable(State(), dirs, cr3);
      assert CountIsExact(State(), dirs, 0) && CountIsExact(State(), dirs, 1);
      TablesAreDistinct(State(), dirs, cr3);
      ReturnDirectory();
      ExitKeeps(old(State()), State(), dirs, cr3);
      dirs := dirs - {cr3};
      cr3 := next;
    }
  }
}
