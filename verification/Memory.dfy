/** Physical memory, page tables and reference counts (src/kernel/memory.c).

    A frame is 1024 words.  A word is read either as user data or as the bit
    fields of page_entry_t, exactly as on the machine, so nothing in the model
    keeps tables and data apart: that is one of the invariants.

    A page directory is a frame of kernel memory.  Its user part is slots 4..63,
    and its last slot points back at the directory itself. */
module Memory {
  import opened Words

  const WORDS := 1024            // words in a frame, entries in a table
  const KERNEL_FRAMES := 4096    // frames of the first 16M, never handed out
  const KERNEL_DIRS := 4         // directory slots below this map the kernel
  const USER_DIRS := 64          // USER_STACK_TOP >> 22
  const SELF := 1023             // directory slot that maps the directory itself
  const KERNEL_TABLE := 2        // frame of the first kernel page table (0x2000)
  const MAX_FRAMES := 0x100000   // page_entry_t.index has 20 bits
  const TASK_NR := 64

  /** One 32-bit word; `misc` stands for pwt, pcd, accessed, dirty, pat and global. */
  datatype Word = Word(present: bool, write: bool, user: bool, misc: nat,
                       shared: bool, privat: bool, readonly: bool, index: nat)

  const ZERO_WORD := Word(false, false, false, 0, false, false, false, 0)

  type Frame = s: seq<Word> | |s| == WORDS witness seq(WORDS, _ => ZERO_WORD)

  function ZeroFrame(): Frame { seq(WORDS, _ => ZERO_WORD) }

  /** entry_init: present, writable, user, every other bit clear. */
  function EntryInit(index: nat): Word {
    Word(true, true, true, 0, false, false, false, index)
  }

  /** A snapshot of the allocator and of physical memory. */
  datatype Mem = Mem(frames: seq<Frame>, count: seq<u8>, free: int)

  /** A path from a process: directory slot `d` of directory frame `dir`, and below
      it table slot `t`; `t == -1` is the page table itself. */
  datatype Slot = Slot(dir: nat, d: int, t: int)

  function At(m: Mem, f: int, k: int): Word {
    if 0 <= f < |m.frames| && 0 <= k < WORDS then m.frames[f][k] else ZERO_WORD
  }

  function FrameAt(m: Mem, f: int): Frame {
    if 0 <= f < |m.frames| then m.frames[f] else ZeroFrame()
  }

  function EntryFrame(m: Mem, s: Slot): nat {
    if s.t == -1 then s.dir else At(m, s.dir, s.d).index
  }

  function EntryIndex(s: Slot): int {
    if s.t == -1 then s.d else s.t
  }

  function Entry(m: Mem, s: Slot): Word {
    At(m, EntryFrame(m, s), EntryIndex(s))
  }

  /** The slot exists: every entry on the path is present. */
  predicate Live(m: Mem, s: Slot) {
    At(m, s.dir, s.d).present && Entry(m, s).present
  }

  function Target(m: Mem, s: Slot): nat {
    Entry(m, s).index
  }

  predicate InUse(dirs: set<nat>, s: Slot) {
    s.dir in dirs && KERNEL_DIRS <= s.d < USER_DIRS && -1 <= s.t < WORDS
  }

  ghost function Slots(dirs: set<nat>): set<Slot> {
    set p, d, t | p in dirs && KERNEL_DIRS <= d < USER_DIRS && -1 <= t < WORDS :: Slot(p, d, t)
  }

  /** The paths among `S` that end in frame `f`. */
  ghost function Refs(m: Mem, S: set<Slot>, f: nat): set<Slot> {
    set s | s in S && Live(m, s) && Target(m, s) == f
  }

  /** How many of the first `n` frames nobody uses. */
  ghost function FreeBelow(count: seq<u8>, n: nat): nat
    requires n <= |count|
  {
    if n == 0 then 0 else FreeBelow(count, n - 1) + if count[n - 1] == 0 then 1 else 0
  }

  ghost function FreeFrames(count: seq<u8>): nat {
    FreeBelow(count, |count|)
  }

  /** What stays fixed in a directory: the self map, and the kernel table whose
      entry 0 serves as a scratch mapping. */
  predicate KernelHalf(m: Mem, p: nat) {
    p < KERNEL_FRAMES && p !in {2, 3, 4, 5} &&
    At(m, p, SELF) == EntryInit(p) &&
    At(m, p, 0).present && At(m, p, 0).index == KERNEL_TABLE
  }

  predicate Dimensions(m: Mem) {
    KERNEL_FRAMES < |m.frames| == |m.count| <= MAX_FRAMES
  }

  ghost predicate CountIsExact(m: Mem, dirs: set<nat>, f: nat)
    requires f < |m.count|
  {
    m.count[f] == if f < KERNEL_FRAMES then 1 else |Refs(m, Slots(dirs), f)|
  }

  ghost predicate Counted(m: Mem, dirs: set<nat>) {
    forall f: nat :: f < |m.count| ==> CountIsExact(m, dirs, f)
  }

  ghost predicate InBounds(m: Mem, dirs: set<nat>) {
    forall s :: InUse(dirs, s) && Live(m, s) ==> KERNEL_FRAMES <= Target(m, s) < |m.count|
  }

  /** A write bit is only ever set on something no other path reaches. */
  ghost predicate WriteExclusive(m: Mem, dirs: set<nat>)
    requires InBounds(m, dirs)
  {
    forall s :: InUse(dirs, s) && Live(m, s) && Entry(m, s).write ==> m.count[Target(m, s)] == 1
  }

  predicate SamePlace(m: Mem, dirs: set<nat>, s: Slot, r: Slot) {
    InUse(dirs, s) && InUse(dirs, r) && Live(m, s) && Live(m, r) && Target(m, s) == Target(m, r) ==>
      s.d == r.d && s.t == r.t
  }

  /** A frame is reached at one place only, whichever process reaches it.  So a
      table is never a data page, and no process reaches a frame twice. */
  ghost predicate OnePlace(m: Mem, dirs: set<nat>) {
    forall s, r :: SamePlace(m, dirs, s, r)
  }

  /** User code is let through every entry on the way to a page, and none is marked shared or
      read-only. */
  ghost predicate OpenToUsers(m: Mem, dirs: set<nat>) {
    forall s :: InUse(dirs, s) && Live(m, s) ==> Entry(m, s).user && !Entry(m, s).shared && !Entry(m, s).readonly
  }

  /** Address 0 is not mapped, so that a null pointer faults. */
  predicate NullUnmapped(m: Mem) {
    !At(m, KERNEL_TABLE, 0).present
  }

  /** The invariant of the memory manager; `dirs` holds the directory frames of the
      processes that exist. */
  ghost predicate Inv(m: Mem, dirs: set<nat>) {
    Dimensions(m) &&
    (forall p :: p in dirs ==> KernelHalf(m, p)) &&
    InBounds(m, dirs) && Counted(m, dirs) && WriteExclusive(m, dirs) &&
    OnePlace(m, dirs) && OpenToUsers(m, dirs) && NullUnmapped(m) &&
    m.free == FreeFrames(m.count)
  }

  // ---------------------------------------------------------------- what a process reads

  datatype Page = Page(d: int, t: int)

  type Space = map<Page, Frame>

  ghost function Pages(): set<Page> {
    set d, t | KERNEL_DIRS <= d < USER_DIRS && 0 <= t < WORDS :: Page(d, t)
  }

  /** The contents a process sees at each page it has mapped. */
  ghost function SpaceOf(m: Mem, p: nat): Space {
    map g | g in Pages() && Live(m, Slot(p, g.d, g.t)) :: FrameAt(m, Target(m, Slot(p, g.d, g.t)))
  }

  ghost function Machine(m: Mem, dirs: set<nat>): map<nat, Space> {
    map p | p in dirs :: SpaceOf(m, p)
  }

  function Put(sp: Space, g: Page, fr: Frame): Space {
    sp[g := fr]
  }

  /** One page of one process replaced, or taken away. */
  function WithPage(a: map<nat, Space>, p: nat, g: Page, fr: Frame): map<nat, Space> {
    if p in a then a[p := Put(a[p], g, fr)] else a
  }

  function WithoutPage(a: map<nat, Space>, p: nat, g: Page): map<nat, Space> {
    if p in a then a[p := a[p] - {g}] else a
  }

  // ---------------------------------------------------------------- specification of each operation

  /** The lowest frame from `i` on that nobody uses; the length when there is none. */
  function FirstFree(count: seq<u8>, i: nat): (r: nat)
    ensures i <= |count| ==> i <= r <= |count|
    ensures r < |count| ==> count[r] == 0
    ensures forall j :: i <= j < r && j < |count| ==> count[j] != 0
    decreases |count| - i
  {
    if i >= |count| then i else if count[i] == 0 then i else FirstFree(count, i + 1)
  }

  function Fresh(m: Mem): nat {
    FirstFree(m.count, 0)
  }

  function SetWord(m: Mem, f: nat, k: nat, w: Word): Mem
    requires f < |m.frames| && k < WORDS
  {
    m.(frames := m.frames[f := m.frames[f][k := w]])
  }

  /** get_page on a frame known to be free. */
  function Take(m: Mem, g: nat): Mem
    requires g < |m.count|
  {
    m.(count := m.count[g := 1], free := m.free - 1)
  }

  /** put_page. */
  function Drop(m: Mem, f: nat): Mem
    requires f < |m.count| && m.count[f] > 0
  {
    m.(count := m.count[f := m.count[f] - 1], free := m.free + if m.count[f] == 1 then 1 else 0)
  }

  /** copy_page: the new frame is mapped for a moment through entry 0 of the first
      kernel table, which is left non-present. */
  function Copied(m: Mem, src: nat, g: nat): Mem
    requires g < |m.frames| && KERNEL_TABLE < |m.frames| && src < |m.frames| && g < |m.count|
  {
    var m1 := SetWord(Take(m, g), KERNEL_TABLE, 0, EntryInit(g).(present := false));
    m1.(frames := m1.frames[g := m1.frames[src]])
  }

  predicate Slotted(m: Mem, s: Slot) {
    Dimensions(m) && EntryFrame(m, s) < |m.frames| && 0 <= EntryIndex(s) < WORDS &&
    Target(m, s) < |m.count|
  }

  /** One level of copy_on_write at the entry of slot `s`.  The source stops the
      machine when the slot does not exist, or when there is no free frame. */
  function Cow(m: Mem, s: Slot): Mem {
    var e := Entry(m, s);
    if !Slotted(m, s) || m.count[e.index] == 0 || e.write then m
    else if m.count[e.index] == 1 then SetWord(m, EntryFrame(m, s), EntryIndex(s), e.(write := true))
    else if Fresh(m) == |m.count| then m
    else
      var g := Fresh(m);
      var m1 := Copied(m, e.index, g);
      var m2 := m1.(count := m1.count[e.index := m1.count[e.index] - 1]);
      SetWord(m2, EntryFrame(m, s), EntryIndex(s), e.(index := g, write := true))
  }

  /** get_pte with create, when the directory slot is empty. */
  function NewTable(m: Mem, p: nat, d: nat): Mem
    requires Dimensions(m) && Fresh(m) < |m.count| && p < |m.frames| && d < WORDS
  {
    var g := Fresh(m);
    var m1 := SetWord(Take(m, g), p, d, EntryInit(g));
    m1.(frames := m1.frames[g := ZeroFrame()])
  }

  /** The page mapped by link_page keeps whatever its frame held before. */
  function NewPage(m: Mem, table: nat, t: nat): Mem
    requires Dimensions(m) && Fresh(m) < |m.count| && table < |m.frames| && t < WORDS
  {
    SetWord(Take(m, Fresh(m)), table, t, EntryInit(Fresh(m)))
  }

  /** A word stored by a process through a writable mapping. */
  function StoreWord(m: Mem, s: Slot, off: nat, w: Word): Mem
    requires Target(m, s) < |m.frames| && off < WORDS
  {
    SetWord(m, Target(m, s), off, w)
  }

  /** The tail of unlink_page: the entry is made non-present and its frame put back. */
  function Unmap(m: Mem, s: Slot): Mem
    requires Slotted(m, s) && m.count[Target(m, s)] > 0
  {
    Drop(SetWord(m, EntryFrame(m, s), EntryIndex(s), Entry(m, s).(present := false)), Target(m, s))
  }
}
