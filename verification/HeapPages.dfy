/** When kmalloc succeeds, and which pages kmalloc and kfree take and give back. */
module HeapPages {
  import opened Words
  import opened Lists
  import opened Heap
  import opened HeapRun
  import Bitmap

  // ---------------------------------------------------------------- runs of unmarked pages

  /** The n pages from p on are in the map, and unmarked. */
  ghost predicate RunAt(h: Heap, p: nat, n: nat) {
    h.base <= p && p + n <= h.base + |h.kmap| && forall q :: p <= q < p + n ==> !Marked(h, q)
  }

  ghost predicate HasRun(h: Heap, n: nat) {
    exists p :: RunAt(h, p, n)
  }

  /** The lowest run is found, and one is found if there is any. */
  lemma FindPagesIs(h: Heap, n: nat)
    requires n > 0
    ensures FindPages(h, n).Some? <==> HasRun(h, n)
    ensures FindPages(h, n).Some? ==>
      RunAt(h, FindPages(h, n).value, n) && forall p :: RunAt(h, p, n) ==> FindPages(h, n).value <= p
  {
    Bitmap.FirstRunIsFirst(h.kmap, 0, n);
    if FindPages(h, n).Some? {
      FindPagesFinds(h, n);
      assert RunAt(h, FindPages(h, n).value, n);
    }
    forall p: nat | RunAt(h, p, n) ensures FindPages(h, n).Some? && FindPages(h, n).value <= p {
      ClearAt(h, p, n);
    }
  }

  lemma ClearAt(h: Heap, p: nat, n: nat)
    requires RunAt(h, p, n) && n > 0
    ensures p - h.base < |h.kmap| && Bitmap.ClearRun(h.kmap, p - h.base, n)
  {
    forall j | p - h.base <= j < p - h.base + n ensures !h.kmap[j] {
      assert !Marked(h, h.base + j);
    }
  }

  // ---------------------------------------------------------------- kmalloc

  /** The smallest blocks that are large enough. */
  predicate Fits(c: nat, size: nat) {
    c < CLASSES && size <= BlockSize(c) && (c > 0 ==> BlockSize(c - 1) < size)
  }

  /** A block of class c is not handed out. */
  ghost predicate HasFree(h: Heap, c: nat)
    requires c < CLASSES
  {
    exists a :: IsFree(h, c, a)
  }

  lemma FreeListIs(h: Heap, c: nat)
    requires Inv(h) && c < CLASSES
    ensures h.free[c] != [] <==> HasFree(h, c)
  {
    assert FreeOk(h, c);
    if h.free[c] != [] {
      assert h.free[c][0] in h.free[c];
    }
  }

  lemma ClassFits(size: nat)
    requires size <= 1024
    ensures Fits(ClassOf(size, 0), size)
  {
  }

  /** kmalloc succeeds exactly when a block of the right class is free, or a page for more of them;
      for more than 1024 bytes, when there are pages enough in a row. */
  lemma KmallocWhen(h: Heap, size: u32)
    requires Inv(h)
    ensures size <= 1024 ==> forall c :: Fits(c, size) ==> (Kmalloc(h, size).Some? <==> HasFree(h, c) || HasRun(h, 1))
    ensures size > 1024 ==> (Kmalloc(h, size).Some? <==> PagesFor(size) > 0 && HasRun(h, PagesFor(size)))
  {
    if size <= 1024 {
      ClassFits(size);
      FreeListIs(h, ClassOf(size, 0));
      FindPagesIs(h, 1);
    } else if PagesFor(size) > 0 {
      FindPagesIs(h, PagesFor(size));
    }
  }

  /** The pages from p on were unmarked, are marked now, and no others; their header is x. */
  ghost predicate Takes(h: Heap, h': Heap, p: nat, n: nat) {
    RunAt(h, p, n) && h'.pages.Keys == h.pages.Keys + {p} && forall q: nat :: Marked(h', q) <==> Marked(h, q) || p <= q < p + n
  }

  ghost predicate SamePages(h: Heap, h': Heap) {
    h'.pages.Keys == h.pages.Keys && h'.kmap == h.kmap && h'.base == h.base
  }

  lemma TakesThen(h: Heap, g: Heap, h': Heap, p: nat, n: nat)
    requires Takes(h, g, p, n) && SamePages(g, h')
    ensures Takes(h, h', p, n)
  {
    forall q: nat ensures Marked(h', q) == Marked(g, q) {
    }
  }

  lemma PopPages(h: Heap, c: nat, size: nat)
    requires Inv(h) && c < CLASSES && h.free[c] != []
    ensures var (h', a) := Pop(h, c, size);
      SamePages(h, h') && IsFree(h, c, a) && h'.pages[PageOf(a)].Small? && h'.pages[PageOf(a)].cls == c
  {
    assert FreeOk(h, c);
    assert h.free[c][0] in h.free[c];
  }

  /** A small block is one of the smallest that fit, in a page that was there if one had a block to
      spare, and else in a new one. */
  lemma KmallocSmall(h: Heap, size: u32, c: nat)
    requires Inv(h) && Fits(c, size) && size <= 1024 && Kmalloc(h, size).Some?
    ensures var (h', a) := Kmalloc(h, size).value;
      PageOf(a) in h'.pages && h'.pages[PageOf(a)].Small? && h'.pages[PageOf(a)].cls == c &&
      if HasFree(h, c) then SamePages(h, h') else Takes(h, h', PageOf(a), 1)
  {
    ClassFits(size);
    FreeListIs(h, c);
    if h.free[c] != [] {
      PopPages(h, c, size);
    } else {
      hide Inv, IsFree, HasFree, Takes, SamePages, Pop, Grow;
      FindPagesIs(h, 1);
      GrowKeeps(h, c);
      var p := FindPages(h, 1).value;
      var g := Grow(h, c, p);
      GrowPages(h, c, p);
      PopPages(g, c, size);
      NewBlock(h, c, p, Pop(g, c, size).1);
      TakesThen(h, g, Pop(g, c, size).0, p, 1);
    }
  }

  lemma GrowPages(h: Heap, c: nat, p: nat)
    requires c < CLASSES && |h.free| == CLASSES && |h.pageCount| == CLASSES && RunAt(h, p, 1)
    ensures Takes(h, Grow(h, c, p), p, 1) && Grow(h, c, p).live == h.live
    ensures Grow(h, c, p).pages == h.pages[p := Small(c, Total(c))]
  {
    MarkPagesIs(h, p, 1, true, p);
    forall q: nat ensures Marked(Grow(h, c, p), q) <==> Marked(h, q) || p <= q < p + 1 {
      MarkPagesIs(h, p, 1, true, q);
    }
  }

  /** With no free block before, a free block is in the new page. */
  lemma NewBlock(h: Heap, c: nat, p: nat, a: nat)
    requires Inv(h) && c < CLASSES && !HasFree(h, c) && RunAt(h, p, 1) && IsFree(Grow(h, c, p), c, a)
    ensures PageOf(a) == p
  {
    GrowPages(h, c, p);
    if PageOf(a) != p {
      assert IsFree(h, c, a);
    }
  }

  /** A large one is whole pages, no more than are needed, found where there are enough in a row
      first. */
  lemma KmallocLarge(h: Heap, size: u32)
    requires Inv(h) && size > 1024 && Kmalloc(h, size).Some?
    ensures var (h', a) := Kmalloc(h, size).value;
      PageOf(a) in h'.pages && h'.pages[PageOf(a)].Large? && a == PageOf(a) * PAGE + ARENA &&
      var n := h'.pages[PageOf(a)].count;
      Takes(h, h', PageOf(a), n) && (forall p :: RunAt(h, p, n) ==> PageOf(a) <= p) &&
      (size < 0x1_0000_0000 - 4111 ==> (n - 1) * 4096 < size + 16 <= n * 4096)
  {
    var n := PagesFor(size);
    FindPagesIs(h, n);
    var p := FindPages(h, n).value;
    var (h', a) := Kmalloc(h, size).value;
    MarkPagesIs(h, p, n, true, p);
    forall q: nat ensures Marked(h', q) <==> Marked(h, q) || p <= q < p + n {
      MarkPagesIs(h, p, n, true, q);
    }
    if size < 0x1_0000_0000 - 4111 { JustEnough(size); }
    HeaderOf(p);
  }

  lemma JustEnough(size: u32)
    requires size < 0x1_0000_0000 - 4111
    ensures (PagesFor(size) - 1) * 4096 < size + 16 <= PagesFor(size) * 4096
  {
  }

  lemma HeaderOf(p: nat)
    ensures PageOf(p * PAGE + ARENA) == p
  {
  }

  // ---------------------------------------------------------------- kfree

  /** Nothing but `a` is handed out of its page. */
  ghost predicate LastIn(h: Heap, a: nat) {
    forall b :: b in h.live && b != a ==> PageOf(b) != PageOf(a)
  }

  /** The pages of an allocation go back: always if it is a large one; else exactly if it was the
      last one in its page and the class has more than four pages. */
  ghost predicate GivesBack(h: Heap, a: nat) {
    PageOf(a) in h.pages &&
    match h.pages[PageOf(a)]
    case Large(_) => true
    case Small(c, _) => LastIn(h, a) && |ClassPages(h.pages, c)| > 4
  }

  /** kfree gives pages back exactly then: they leave the heap and their bits are clear, and no other
      page or bit changes. */
  lemma KfreePages(h: Heap, a: nat)
    requires Inv(h) && a in h.live
    ensures PageOf(a) in h.pages && (h.pages[PageOf(a)].Small? ==> h.pages[PageOf(a)].cls < CLASSES)
    ensures var h', p := Kfree(h, a), PageOf(a);
      h'.pages.Keys == (if GivesBack(h, a) then h.pages.Keys - {p} else h.pages.Keys) &&
      forall q: nat :: Marked(h', q) <==> Marked(h, q) && !(GivesBack(h, a) && p <= q < p + Pages(h.pages[p]))
  {
    assert LiveOk(h, a);
    var p: nat, h' := PageOf(a), Kfree(h, a);
    assert PageOk(h, p);
    var last: nat := p + Pages(h.pages[p]) - 1;
    assert Marked(h, p) && Marked(h, last);
    if h.pages[p].Large? {
      forall q: nat ensures Marked(h', q) <==> Marked(h, q) && !(p <= q < p + Pages(h.pages[p])) {
        MarkPagesIs(h, p, h.pages[p].count, false, q);
      }
    } else {
      KfreeSmallPages(h, a);
    }
  }

  lemma KfreeSmallPages(h: Heap, a: nat)
    requires SmallLive(h, a)
    ensures var h', p := Kfree(h, a), PageOf(a);
      h'.pages.Keys == (if GivesBack(h, a) then h.pages.Keys - {p} else h.pages.Keys) &&
      forall q: nat :: Marked(h', q) <==> Marked(h, q) && !(GivesBack(h, a) && q == p)
  {
    var p, h' := PageOf(a), Kfree(h, a);
    var c := h.pages[p].cls;
    var f := Push(h, c, a);
    PushKeeps(h, a);
    FullCount(f, p);
    assert PageOk(h, p) && Marked(h, p) && FreeOk(h, c);
    LastIs(h, a, c);
    hide Inv;
    if f.pages[p].count == Total(c) && f.pageCount[c] > BUF_COUNT {
      MarkPagesIs(f, p, 1, false, p);
      forall q: nat ensures Marked(h', q) <==> Marked(h, q) && q != p {
        MarkPagesIs(f, p, 1, false, q);
      }
    }
  }

  lemma LastIs(h: Heap, a: nat, c: nat)
    requires SmallLive(h, a) && c == h.pages[PageOf(a)].cls
    ensures WhollyFree(Push(h, c, a), PageOf(a)) <==> LastIn(h, a)
    ensures Push(h, c, a).pageCount == h.pageCount && Push(h, c, a).pages.Keys == h.pages.Keys
    ensures Push(h, c, a).kmap == h.kmap && Push(h, c, a).base == h.base
  {
  }
}
