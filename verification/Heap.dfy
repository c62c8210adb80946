/** The kernel heap (src/kernel/arena.c) over the map of kernel pages (alloc_kpage, free_kpage
    in src/kernel/memory.c): seven classes of blocks from 16 to 1024 bytes, and whole pages. */
module Heap {
  import opened Words
  import opened Lists
  import Bitmap

  const PAGE := 4096
  const ARENA := 16             // sizeof(arena_t)
  const BUF_COUNT := 4
  const CLASSES := 7

  /** block_size of a descriptor. */
  function BlockSize(c: nat): (r: nat)
    requires c < CLASSES
    ensures 16 <= r <= 1024
  {
    [16, 32, 64, 128, 256, 512, 1024][c]
  }

  /** total_block of a descriptor. */
  function Total(c: nat): nat
    requires c < CLASSES
  {
    (PAGE - ARENA) / BlockSize(c)
  }

  /** arena_t at the start of a page. */
  datatype Header = Small(cls: nat, count: nat) | Large(count: nat)

  /** `pages` are the headers of the arenas, by page number; bit b of the map stands for page
      base + b.  `live` is what was handed out and not given back, with the size asked for. */
  datatype Heap = Heap(pages: map<nat, Header>, free: seq<seq<nat>>, pageCount: seq<nat>,
                       kmap: seq<bool>, base: nat, live: map<nat, nat>)

  /** get_arena_block. */
  function Block(p: nat, i: nat, c: nat): nat
    requires c < CLASSES
  {
    p * PAGE + ARENA + i * BlockSize(c)
  }

  /** get_block_arena: the page of an address. */
  function PageOf(a: nat): nat {
    a / PAGE
  }

  predicate IsBlock(a: nat, p: nat, c: nat)
    requires c < CLASSES
  {
    PageOf(a) == p && a % PAGE >= ARENA && (a % PAGE - ARENA) % BlockSize(c) == 0 && (a % PAGE - ARENA) / BlockSize(c) < Total(c)
  }

  /** The number of a block in its page. */
  function IndexOf(a: nat, c: nat): nat
    requires c < CLASSES && a % PAGE >= ARENA
  {
    (a % PAGE - ARENA) / BlockSize(c)
  }

  lemma BlockInPage(p: nat, i: nat, c: nat)
    requires c < CLASSES && i < Total(c)
    ensures IsBlock(Block(p, i, c), p, c) && IndexOf(Block(p, i, c), c) == i
    ensures Block(p, i, c) % PAGE + BlockSize(c) <= PAGE
  {
    var off := ARENA + i * BlockSize(c);
    OffsetFits(i, c);
    assert (p * PAGE + off) / PAGE == p && (p * PAGE + off) % PAGE == off;
  }

  lemma OffsetFits(i: nat, c: nat)
    requires c < CLASSES && i < Total(c)
    ensures ARENA + i * BlockSize(c) + BlockSize(c) <= PAGE
    ensures (i * BlockSize(c)) / BlockSize(c) == i && (i * BlockSize(c)) % BlockSize(c) == 0
  {
    if c == 0 {} else if c == 1 {} else if c == 2 {} else if c == 3 {} else if c == 4 {} else if c == 5 {} else {}
  }

  lemma BlockIs(a: nat, p: nat, c: nat)
    requires c < CLASSES && IsBlock(a, p, c)
    ensures a == Block(p, IndexOf(a, c), c) && IndexOf(a, c) < Total(c)
  {
    assert a == p * PAGE + a % PAGE;
    Exact(a % PAGE - ARENA, c);
  }

  lemma Exact(n: nat, c: nat)
    requires c < CLASSES && n % BlockSize(c) == 0
    ensures n == n / BlockSize(c) * BlockSize(c)
  {
    if c == 0 {} else if c == 1 {} else if c == 2 {} else if c == 3 {} else if c == 4 {} else if c == 5 {} else {}
  }

  lemma BlockOrder(p: nat, i: nat, j: nat, c: nat)
    requires c < CLASSES && i < j
    ensures Block(p, i, c) + BlockSize(c) <= Block(p, j, c)
  {
    hide BlockSize;
    Times(i + 1, j, BlockSize(c));
  }

  lemma Times(i: nat, j: nat, n: nat)
    requires i <= j
    ensures i * n <= j * n
  {
  }

  /** Two blocks of a page do not overlap. */
  lemma BlocksApart(a: nat, b: nat, p: nat, c: nat)
    requires c < CLASSES && IsBlock(a, p, c) && IsBlock(b, p, c) && a < b
    ensures a + BlockSize(c) <= b
  {
    BlockIs(a, p, c);
    BlockIs(b, p, c);
    hide Block, BlockSize, IsBlock;
    var i, j := IndexOf(a, c), IndexOf(b, c);
    if i < j {
      BlockOrder(p, i, j, c);
    } else if j < i {
      BlockOrder(p, j, i, c);
    }
  }

  // ---------------------------------------------------------------- kernel pages

  /** alloc_kpage: the first run of clear bits. */
  function FindPages(h: Heap, n: nat): Option<nat> {
    if n == 0 then None
    else
      var i := Bitmap.FirstRun(h.kmap, 0, n);
      if i < |h.kmap| then Some(h.base + i) else None
  }

  function Marked(h: Heap, q: nat): bool {
    h.base <= q < h.base + |h.kmap| && h.kmap[q - h.base]
  }

  /** The bits of pages p .. p + n set or cleared. */
  function MarkPages(h: Heap, p: nat, n: nat, value: bool): Heap {
    if n == 0 then h
    else
      var m := MarkPages(h, p, n - 1, value);
      var i := p + n - 1 - h.base;
      if 0 <= i < |m.kmap| then m.(kmap := m.kmap[i := value]) else m
  }

  // ---------------------------------------------------------------- kmalloc

  /** The first class whose blocks are large enough. */
  function ClassOf(size: nat, c: nat): (r: nat)
    requires size <= 1024 && c < CLASSES && (c > 0 ==> BlockSize(c - 1) < size)
    ensures c <= r < CLASSES && BlockSize(r) >= size && forall d :: 0 <= d < r ==> BlockSize(d) < size
    decreases CLASSES - c
  {
    if BlockSize(c) >= size then c else ClassOf(size, c + 1)
  }

  /** The blocks 0 .. n of page p, pushed one after the other. */
  function PushAll(l: seq<nat>, p: nat, c: nat, n: nat): seq<nat>
    requires c < CLASSES
  {
    if n == 0 then l else [Block(p, n - 1, c)] + PushAll(l, p, c, n - 1)
  }

  /** A page for class c. */
  function Grow(h: Heap, c: nat, p: nat): Heap
    requires c < CLASSES && |h.free| == CLASSES && |h.pageCount| == CLASSES
  {
    MarkPages(h, p, 1, true).(
      pages := h.pages[p := Small(c, Total(c))],
      free := h.free[c := PushAll(h.free[c], p, c, Total(c))],
      pageCount := h.pageCount[c := h.pageCount[c] + 1])
  }

  /** The head of the free list is handed out. */
  function Pop(h: Heap, c: nat, size: nat): (Heap, nat)
    requires c < |h.free| && h.free[c] != []
  {
    var a := h.free[c][0];
    var p := PageOf(a);
    (h.(free := h.free[c := h.free[c][1..]],
        pages := if p in h.pages && h.pages[p].count > 0 then h.pages[p := h.pages[p].(count := h.pages[p].count - 1)] else h.pages,
        live := h.live[a := size]), a)
  }

  /** div_round_up of the size with the header, both in 32 bits. */
  function PagesFor(size: u32): nat {
    ((size + ARENA) % 0x1_0000_0000 + PAGE - 1) % 0x1_0000_0000 / PAGE
  }

  /** No pages at all are asked for exactly when one of the two sums comes to 2^32 and the other
      no further. */
  lemma NoPages(size: u32)
    ensures PagesFor(size) == 0 <==> 0x1_0000_0000 - (ARENA + PAGE - 1) <= size <= 0x1_0000_0000 - ARENA
  {
  }

  /** kmalloc; None when the pages run out or none are asked for, where the kernel stops. */
  function Kmalloc(h: Heap, size: u32): Option<(Heap, nat)>
    requires |h.free| == CLASSES && |h.pageCount| == CLASSES
  {
    if size > 1024 then
      var n := PagesFor(size);
      var p := FindPages(h, n);
      if p.None? then None
      else
        var a := p.value * PAGE + ARENA;
        Some((MarkPages(h, p.value, n, true).(pages := h.pages[p.value := Large(n)], live := h.live[a := size]), a))
    else
      var c := ClassOf(size, 0);
      if h.free[c] != [] then Some(Pop(h, c, size))
      else
        var p := FindPages(h, 1);
        if p.None? then None else PushAllNonempty(h.free[c], p.value, c); Some(Pop(Grow(h, c, p.value), c, size))
  }

  lemma PushAllNonempty(l: seq<nat>, p: nat, c: nat)
    requires c < CLASSES
    ensures PushAll(l, p, c, Total(c)) != []
  {
    assert Total(c) >= 3;
  }

  // ---------------------------------------------------------------- kfree

  function RemoveAll(l: seq<nat>, p: nat, c: nat, n: nat): seq<nat>
    requires c < CLASSES
  {
    if n == 0 then l else Without(RemoveAll(l, p, c, n - 1), Block(p, n - 1, c))
  }

  /** A wholly free page is given back, unless its class has few of them. */
  function Shrink(h: Heap, c: nat, p: nat): Heap
    requires c < CLASSES && |h.free| == CLASSES && |h.pageCount| == CLASSES && h.pageCount[c] > 0
  {
    MarkPages(h, p, 1, false).(
      pages := h.pages - {p},
      free := h.free[c := RemoveAll(h.free[c], p, c, Total(c))],
      pageCount := h.pageCount[c := h.pageCount[c] - 1])
  }

  /** The block goes to the front of its free list. */
  function Push(h: Heap, c: nat, a: nat): Heap
    requires c < |h.free|
  {
    var p := PageOf(a);
    h.(free := h.free[c := [a] + h.free[c]],
       pages := if p in h.pages then h.pages[p := h.pages[p].(count := h.pages[p].count + 1)] else h.pages,
       live := h.live - {a})
  }

  /** kfree of an address that kmalloc returned. */
  function Kfree(h: Heap, a: nat): Heap
    requires |h.free| == CLASSES && |h.pageCount| == CLASSES
    requires PageOf(a) in h.pages && (h.pages[PageOf(a)].Small? ==> h.pages[PageOf(a)].cls < CLASSES)
  {
    var p := PageOf(a);
    match h.pages[p]
    case Large(n) => MarkPages(h, p, n, false).(pages := h.pages - {p}, live := h.live - {a})
    case Small(c, _) =>
      var f := Push(h, c, a);
      if f.pages[p].count == Total(c) && f.pageCount[c] > BUF_COUNT then Shrink(f, c, p) else f
  }

  // ---------------------------------------------------------------- the invariant

  function Pages(x: Header): nat {
    if x.Small? then 1 else x.count
  }

  /** The blocks 0 .. n of page p that are not handed out. */
  function FreeIn(live: map<nat, nat>, p: nat, c: nat, n: nat): nat
    requires c < CLASSES
  {
    if n == 0 then 0 else FreeIn(live, p, c, n - 1) + if Block(p, n - 1, c) in live then 0 else 1
  }

  ghost predicate LiveOk(h: Heap, a: nat) {
    a in h.live ==>
      PageOf(a) in h.pages &&
      match h.pages[PageOf(a)]
      case Small(c, _) => c < CLASSES && IsBlock(a, PageOf(a), c) && h.live[a] <= BlockSize(c)
      case Large(n) => a == PageOf(a) * PAGE + ARENA && ARENA + h.live[a] <= n * PAGE
  }

  ghost predicate PageOk(h: Heap, p: nat) {
    p in h.pages ==>
      Pages(h.pages[p]) > 0 && (forall q :: p <= q < p + Pages(h.pages[p]) ==> Marked(h, q)) &&
      match h.pages[p]
      case Small(c, count) => c < CLASSES && count == FreeIn(h.live, p, c, Total(c))
      case Large(_) => true
  }

  ghost predicate PagesApart(h: Heap, p: nat, q: nat) {
    p in h.pages && q in h.pages && p < q ==> p + Pages(h.pages[p]) <= q
  }

  /** `a` is a block of a page of class c, and not handed out. */
  predicate IsFree(h: Heap, c: nat, a: nat)
    requires c < CLASSES
  {
    PageOf(a) in h.pages && h.pages[PageOf(a)].Small? && h.pages[PageOf(a)].cls == c && IsBlock(a, PageOf(a), c) && a !in h.live
  }

  ghost predicate FreeOk(h: Heap, c: nat)
    requires |h.free| == CLASSES && |h.pageCount| == CLASSES
  {
    c < CLASSES ==>
      NoDup(h.free[c]) && (forall a :: a in h.free[c] <==> IsFree(h, c, a)) && h.pageCount[c] == |ClassPages(h.pages, c)|
  }

  function ClassPages(pages: map<nat, Header>, c: nat): set<nat> {
    set p | p in pages && pages[p].Small? && pages[p].cls == c
  }

  ghost predicate Inv(h: Heap) {
    |h.free| == CLASSES && |h.pageCount| == CLASSES &&
    (forall a :: LiveOk(h, a)) && (forall p :: PageOk(h, p)) && (forall p, q :: PagesApart(h, p, q)) && (forall c :: FreeOk(h, c))
  }

  /** What is handed out never overlaps, and never touches a header. */
  lemma LiveApart(h: Heap, a: nat, b: nat)
    requires Inv(h) && a in h.live && b in h.live && a < b
    ensures a + h.live[a] <= b
    ensures forall p :: p in h.pages ==> a + h.live[a] <= p * PAGE || p * PAGE + ARENA <= a
  {
    assert LiveOk(h, a) && LiveOk(h, b);
    var p, q := PageOf(a), PageOf(b);
    assert PagesApart(h, p, q) && PagesApart(h, q, p) && PageOk(h, p);
    InsideArena(h, a);
    InsideArena(h, b);
    if p == q && h.pages[p].Small? {
      BlocksApart(a, b, p, h.pages[p].cls);
    }
    forall r | r in h.pages ensures a + h.live[a] <= r * PAGE || r * PAGE + ARENA <= a {
      assert PagesApart(h, p, r) && PagesApart(h, r, p) && PageOk(h, r);
    }
  }

  lemma InsideArena(h: Heap, a: nat)
    requires Inv(h) && a in h.live
    ensures var p := PageOf(a); p in h.pages && p * PAGE + ARENA <= a && a + h.live[a] <= (p + Pages(h.pages[p])) * PAGE
  {
    assert LiveOk(h, a);
    var p := PageOf(a);
    if h.pages[p].Small? {
      var c := h.pages[p].cls;
      BlockIs(a, p, c);
      BlockInPage(p, IndexOf(a, c), c);
    }
  }
}
