/** The heap over any run of kmalloc and kfree. */
module HeapRun {
  import opened Words
  import opened Lists
  import opened Heap
  import Bitmap

  // ---------------------------------------------------------------- the page map

  lemma {:induction false} MarkPagesIs(h: Heap, p: nat, n: nat, value: bool, q: nat)
    requires h.base <= p && p + n <= h.base + |h.kmap|
    ensures MarkPages(h, p, n, value) == h.(kmap := MarkPages(h, p, n, value).kmap) && |MarkPages(h, p, n, value).kmap| == |h.kmap|
    ensures Marked(MarkPages(h, p, n, value), q) == if p <= q < p + n then value else Marked(h, q)
  {
    if n > 0 {
      MarkPagesIs(h, p, n - 1, value, q);
    }
  }

  /** The pages found are all unmarked. */
  lemma FindPagesFinds(h: Heap, n: nat)
    requires FindPages(h, n).Some?
    ensures var p := FindPages(h, n).value;
      h.base <= p && p + n <= h.base + |h.kmap| && forall q :: p <= q < p + n ==> !Marked(h, q)
  {
    Bitmap.FirstRunIsFirst(h.kmap, 0, n);
    var i := Bitmap.FirstRun(h.kmap, 0, n);
    assert Bitmap.ClearRun(h.kmap, i, n);
  }

  /** A page of the heap is marked, so what is found is disjoint from all of them. */
  lemma FoundIsNew(h: Heap, n: nat)
    requires Inv(h) && FindPages(h, n).Some?
    ensures var p := FindPages(h, n).value;
      forall q :: q in h.pages ==> q + Pages(h.pages[q]) <= p || p + n <= q
  {
    FindPagesFinds(h, n);
    var p := FindPages(h, n).value;
    forall q | q in h.pages ensures q + Pages(h.pages[q]) <= p || p + n <= q {
      assert PageOk(h, q);
      var x := if q < p then p else q;
      assert q <= x < q + Pages(h.pages[q]) ==> Marked(h, x);
    }
  }

  // ---------------------------------------------------------------- counting free blocks

  lemma {:induction false} FreeInSame(live: map<nat, nat>, live': map<nat, nat>, p: nat, c: nat, n: nat)
    requires c < CLASSES && n <= Total(c)
    requires forall i :: 0 <= i < n ==> (Block(p, i, c) in live <==> Block(p, i, c) in live')
    ensures FreeIn(live, p, c, n) == FreeIn(live', p, c, n)
  {
    if n > 0 { FreeInSame(live, live', p, c, n - 1); }
  }

  lemma {:induction false} FreeInChange(live: map<nat, nat>, live': map<nat, nat>, p: nat, c: nat, n: nat, k: nat)
    requires c < CLASSES && n <= Total(c) && k < Total(c) && Block(p, k, c) !in live && Block(p, k, c) in live'
    requires forall i :: 0 <= i < n && i != k ==> (Block(p, i, c) in live <==> Block(p, i, c) in live')
    ensures FreeIn(live, p, c, n) == FreeIn(live', p, c, n) + if k < n then 1 else 0
  {
    if n > 0 {
      FreeInChange(live, live', p, c, n - 1, k);
    }
  }

  lemma {:induction false} FreeInAll(live: map<nat, nat>, p: nat, c: nat, n: nat)
    requires c < CLASSES && n <= Total(c)
    ensures FreeIn(live, p, c, n) <= n
    ensures FreeIn(live, p, c, n) == n <==> forall i :: 0 <= i < n ==> Block(p, i, c) !in live
  {
    if n > 0 { FreeInAll(live, p, c, n - 1); }
  }

  /** Handing out or taking back a block of one page does not change the count of another. */
  lemma FreeInElsewhere(live: map<nat, nat>, live': map<nat, nat>, p: nat, c: nat, a: nat)
    requires c < CLASSES && PageOf(a) != p && forall x :: x != a ==> (x in live <==> x in live')
    ensures FreeIn(live, p, c, Total(c)) == FreeIn(live', p, c, Total(c))
  {
    forall i | 0 <= i < Total(c) ensures Block(p, i, c) in live <==> Block(p, i, c) in live' {
      BlockInPage(p, i, c);
    }
    FreeInSame(live, live', p, c, Total(c));
  }

  /** The count of the page of a block that is handed out goes down by one. */
  lemma FreeInHere(live: map<nat, nat>, live': map<nat, nat>, p: nat, c: nat, a: nat)
    requires c < CLASSES && IsBlock(a, p, c) && a !in live && a in live' && forall x :: x != a ==> (x in live <==> x in live')
    ensures FreeIn(live, p, c, Total(c)) == FreeIn(live', p, c, Total(c)) + 1
  {
    BlockIs(a, p, c);
    var k := IndexOf(a, c);
    forall i | 0 <= i < Total(c) && i != k ensures Block(p, i, c) != a {
      BlockInPage(p, i, c);
    }
    FreeInChange(live, live', p, c, Total(c), k);
  }

  // ---------------------------------------------------------------- blocks of a page on a list

  lemma {:induction false} PushAllIs(l: seq<nat>, p: nat, c: nat, n: nat)
    requires c < CLASSES && n <= Total(c) && NoDup(l) && forall a :: a in l ==> PageOf(a) != p
    ensures NoDup(PushAll(l, p, c, n))
    ensures forall a :: a in PushAll(l, p, c, n) <==> a in l || (IsBlock(a, p, c) && IndexOf(a, c) < n)
  {
    if n > 0 {
      PushAllIs(l, p, c, n - 1);
      BlockInPage(p, n - 1, c);
      forall a | IsBlock(a, p, c) && IndexOf(a, c) == n - 1 ensures a == Block(p, n - 1, c) {
        BlockIs(a, p, c);
      }
    }
  }

  lemma {:induction false} RemoveAllIs(l: seq<nat>, p: nat, c: nat, n: nat)
    requires c < CLASSES && n <= Total(c) && NoDup(l)
    ensures NoDup(RemoveAll(l, p, c, n))
    ensures forall a :: a in RemoveAll(l, p, c, n) <==> a in l && !(IsBlock(a, p, c) && IndexOf(a, c) < n)
  {
    if n > 0 {
      RemoveAllIs(l, p, c, n - 1);
      BlockInPage(p, n - 1, c);
      forall a | IsBlock(a, p, c) && IndexOf(a, c) == n - 1 ensures a == Block(p, n - 1, c) {
        BlockIs(a, p, c);
      }
    }
  }

  // ---------------------------------------------------------------- a new page

  lemma ClassPagesAdd(pages: map<nat, Header>, p: nat, x: Header, c: nat)
    requires p !in pages
    ensures |ClassPages(pages[p := x], c)| == |ClassPages(pages, c)| + if x.Small? && x.cls == c then 1 else 0
  {
    if x.Small? && x.cls == c {
      assert ClassPages(pages[p := x], c) == ClassPages(pages, c) + {p};
    } else {
      assert ClassPages(pages[p := x], c) == ClassPages(pages, c);
    }
  }

  lemma ClassPagesDrop(pages: map<nat, Header>, p: nat, c: nat)
    requires p in pages
    ensures |ClassPages(pages - {p}, c)| == |ClassPages(pages, c)| - if pages[p].Small? && pages[p].cls == c then 1 else 0
  {
    if pages[p].Small? && pages[p].cls == c {
      assert ClassPages(pages, c) == ClassPages(pages - {p}, c) + {p};
    } else {
      assert ClassPages(pages - {p}, c) == ClassPages(pages, c);
    }
  }

  lemma ClassPagesSame(pages: map<nat, Header>, p: nat, count: nat, c: nat)
    requires p in pages && pages[p].Small?
    ensures ClassPages(pages[p := pages[p].(count := count)], c) == ClassPages(pages, c)
  {
  }

  /** Nothing of the heap lies in a page it does not have. */
  lemma NewPage(h: Heap, p: nat, c: nat)
    requires Inv(h) && p !in h.pages && c < CLASSES
    ensures forall a :: a in h.live ==> PageOf(a) != p
    ensures forall a :: a in h.free[c] ==> PageOf(a) != p
  {
    forall a | a in h.live ensures PageOf(a) != p {
      assert LiveOk(h, a);
    }
    assert FreeOk(h, c);
  }

  lemma GrowFree(h: Heap, c: nat, p: nat, d: nat)
    requires Inv(h) && c < CLASSES && p !in h.pages && d < CLASSES && h.base <= p < h.base + |h.kmap|
    ensures FreeOk(Grow(h, c, p), d)
  {
    var h' := Grow(h, c, p);
    MarkPagesIs(h, p, 1, true, p);
    assert FreeOk(h, d);
    NewPage(h, p, d);
    ClassPagesAdd(h.pages, p, Small(c, Total(c)), d);
    if d == c {
      PushAllIs(h.free[c], p, c, Total(c));
      forall a ensures a in h'.free[c] <==> IsFree(h', c, a) {
        if IsBlock(a, p, c) { BlockIs(a, p, c); }
      }
    } else {
      forall a ensures a in h'.free[d] <==> IsFree(h', d, a) {
        assert a in h.free[d] <==> IsFree(h, d, a);
      }
    }
  }

  lemma GrowKeeps(h: Heap, c: nat)
    requires Inv(h) && c < CLASSES && FindPages(h, 1).Some?
    ensures Inv(Grow(h, c, FindPages(h, 1).value)) && Grow(h, c, FindPages(h, 1).value).free[c] != []
  {
    var p := FindPages(h, 1).value;
    var h' := Grow(h, c, p);
    FindPagesFinds(h, 1);
    FoundIsNew(h, 1);
    assert p !in h.pages by {
      assert PageOk(h, p);
    }
    PushAllNonempty(h.free[c], p, c);
    forall d: nat ensures FreeOk(h', d) {
      if d < CLASSES { GrowFree(h, c, p, d); }
    }
    MarkPagesIs(h, p, 1, true, p);
    NewPage(h, p, c);
    forall a: nat ensures LiveOk(h', a) {
      assert LiveOk(h, a);
    }
    forall q: nat ensures PageOk(h', q) {
      assert PageOk(h, q);
      forall x ensures Marked(h', x) == (x == p || Marked(h, x)) {
        if x >= 0 { MarkPagesIs(h, p, 1, true, x); }
      }
      if q == p {
        forall i | 0 <= i < Total(c) ensures Block(p, i, c) !in h.live {
          BlockInPage(p, i, c);
        }
        FreeInAll(h.live, p, c, Total(c));
      }
    }
    forall q: nat, r: nat ensures PagesApart(h', q, r) {
      assert PagesApart(h, q, r);
    }
  }

  // ---------------------------------------------------------------- handing out a block

  lemma PopFree(h: Heap, c: nat, size: nat, d: nat)
    requires Inv(h) && c < CLASSES && h.free[c] != [] && d < CLASSES
    ensures FreeOk(Pop(h, c, size).0, d)
  {
    var (h', a) := Pop(h, c, size);
    assert FreeOk(h, c) && FreeOk(h, d);
    assert h.free[c] == [a] + h.free[c][1..];
    assert a in h.free[c];
    ClassPagesSame(h.pages, PageOf(a), h'.pages[PageOf(a)].count, d);
    forall x ensures x in h'.free[d] <==> IsFree(h', d, x) {
      assert x in h.free[d] <==> IsFree(h, d, x);
    }
  }

  /** The header of the page was right, so its count was not zero. */
  lemma PopPage(h: Heap, c: nat, size: nat, q: nat)
    requires Inv(h) && c < CLASSES && h.free[c] != []
    ensures PageOk(Pop(h, c, size).0, q)
  {
    var (h', a) := Pop(h, c, size);
    assert FreeOk(h, c);
    assert a in h.free[c] && IsFree(h, c, a);
    assert PageOk(h, q) && PageOk(h, PageOf(a));
    FreeInHere(h.live, h'.live, PageOf(a), c, a);
    forall x ensures Marked(h', x) == Marked(h, x) {
    }
    if q in h.pages && h.pages[q].Small? && q != PageOf(a) {
      FreeInElsewhere(h.live, h'.live, q, h.pages[q].cls, a);
    }
  }

  lemma PopKeeps(h: Heap, c: nat, size: nat)
    requires Inv(h) && c < CLASSES && h.free[c] != [] && size <= BlockSize(c)
    ensures Inv(Pop(h, c, size).0) && Pop(h, c, size).1 !in h.live && Pop(h, c, size).0.live == h.live[Pop(h, c, size).1 := size]
  {
    var (h', a) := Pop(h, c, size);
    assert FreeOk(h, c);
    assert a in h.free[c] && IsFree(h, c, a);
    forall d: nat ensures FreeOk(h', d) {
      if d < CLASSES { PopFree(h, c, size, d); }
    }
    forall q: nat ensures PageOk(h', q) {
      PopPage(h, c, size, q);
    }
    forall x: nat ensures LiveOk(h', x) {
      assert LiveOk(h, x);
    }
    forall q: nat, r: nat ensures PagesApart(h', q, r) {
      assert PagesApart(h, q, r);
    }
  }

  // ---------------------------------------------------------------- whole pages

  lemma LargeKeepsOthers(h: Heap, size: u32)
    requires Inv(h) && size > 1024 && Kmalloc(h, size).Some?
    ensures var h' := Kmalloc(h, size).value.0;
      (forall p :: PageOk(h', p)) && (forall p, q :: PagesApart(h', p, q)) && |h'.free| == CLASSES == |h'.pageCount| && (forall c :: FreeOk(h', c))
  {
    var n := PagesFor(size);
    var p := FindPages(h, n).value;
    var (h', a) := Kmalloc(h, size).value;
    FindPagesFinds(h, n);
    FoundIsNew(h, n);
    MarkPagesIs(h, p, n, true, p);
    assert p !in h.pages by {
      assert PageOk(h, p);
    }
    forall x ensures Marked(h', x) == (p <= x < p + n || Marked(h, x)) {
      if x >= 0 { MarkPagesIs(h, p, n, true, x); }
    }
    forall q: nat ensures PageOk(h', q) {
      assert PageOk(h, q);
      if q != p && q in h.pages && h.pages[q].Small? {
        assert PageOf(a) == p;
        FreeInElsewhere(h.live, h'.live, q, h.pages[q].cls, a);
      }
    }
    forall q: nat, r: nat ensures PagesApart(h', q, r) {
      assert PagesApart(h, q, r);
    }
    forall c: nat ensures FreeOk(h', c) {
      if c < CLASSES { LargeFree(h, h', p, n, a, size, c); }
    }
  }

  lemma LargeFree(h: Heap, h': Heap, p: nat, n: nat, a: nat, size: nat, c: nat)
    requires Inv(h) && p !in h.pages && c < CLASSES && a == p * PAGE + ARENA
    requires h'.free == h.free && h'.pageCount == h.pageCount && h'.pages == h.pages[p := Large(n)] && h'.live == h.live[a := size]
    ensures FreeOk(h', c)
  {
    assert FreeOk(h, c);
    ClassPagesAdd(h.pages, p, Large(n), c);
    forall x ensures x in h'.free[c] <==> IsFree(h', c, x) {
      assert x in h.free[c] <==> IsFree(h, c, x);
      assert PageOf(a) == p;
    }
  }

  /** kmalloc gives room enough and disturbs nothing, exactly when the size with the header
      still fits 32 bits. */
  lemma KmallocKeeps(h: Heap, size: u32)
    requires Inv(h) && Kmalloc(h, size).Some?
    ensures Inv(Kmalloc(h, size).value.0) <==> size + ARENA < 0x1_0000_0000
    ensures var (h', a) := Kmalloc(h, size).value; a !in h.live && h'.live == h.live[a := size]
  {
    var (h', a) := Kmalloc(h, size).value;
    if size <= 1024 {
      var c := ClassOf(size, 0);
      if h.free[c] != [] {
        PopKeeps(h, c, size);
      } else {
        GrowKeeps(h, c);
        var p := FindPages(h, 1).value;
        MarkPagesIs(h, p, 1, true, p) by { FindPagesFinds(h, 1); }
        PopKeeps(Grow(h, c, p), c, size);
      }
    } else {
      LargeKeepsOthers(h, size);
      LargeLive(h, size);
    }
  }

  /** On an empty heap with pages to spare the largest size gets one page. */
  lemma TooLittle(base: nat)
    ensures var h := Heap(map[], seq(CLASSES, _ => []), seq(CLASSES, _ => 0), [false], base, map[]);
      Inv(h) && Kmalloc(h, 0xFFFF_FFFF).Some? && !Inv(Kmalloc(h, 0xFFFF_FFFF).value.0) &&
      Kmalloc(h, 0xFFFF_FFFF).value.0.pages == map[base := Large(1)]
  {
    var h := Heap(map[], seq(CLASSES, _ => []), seq(CLASSES, _ => 0), [false], base, map[]);
    EmptyHeap([false], base);
    assert PagesFor(0xFFFF_FFFF) == 1;
    Bitmap.FirstRunIsFirst([false], 0, 1);
    assert Bitmap.ClearRun([false], 0, 1);
    MarkPagesKeeps(h, base, 1, true);
    KmallocKeeps(h, 0xFFFF_FFFF);
  }

  lemma LargeLive(h: Heap, size: u32)
    requires Inv(h) && size > 1024 && Kmalloc(h, size).Some?
    ensures var (h', a) := Kmalloc(h, size).value;
      a !in h.live && h'.live == h.live[a := size] && ((forall x :: LiveOk(h', x)) <==> size + ARENA < 0x1_0000_0000)
  {
    var n := PagesFor(size);
    var p := FindPages(h, n).value;
    var (h', a) := Kmalloc(h, size).value;
    FindPagesFinds(h, n);
    FoundIsNew(h, n);
    MarkPagesIs(h, p, n, true, p);
    assert PageOf(a) == p;
    assert p !in h.pages by {
      assert PageOk(h, p);
    }
    assert LiveOk(h, a);
    forall x: nat | x != a ensures LiveOk(h', x) {
      assert LiveOk(h, x);
    }
    assert LiveOk(h', a) <==> ARENA + size <= n * PAGE;
  }

  // ---------------------------------------------------------------- giving back

  ghost predicate SmallLive(h: Heap, a: nat) {
    Inv(h) && a in h.live && PageOf(a) in h.pages && h.pages[PageOf(a)].Small? && h.pages[PageOf(a)].cls < CLASSES
  }

  lemma PushFree(h: Heap, a: nat, d: nat)
    requires SmallLive(h, a) && d < CLASSES
    ensures FreeOk(Push(h, h.pages[PageOf(a)].cls, a), d)
  {
    var c := h.pages[PageOf(a)].cls;
    var h' := Push(h, c, a);
    assert FreeOk(h, c) && FreeOk(h, d) && LiveOk(h, a);
    ClassPagesSame(h.pages, PageOf(a), h'.pages[PageOf(a)].count, d);
    assert !IsFree(h, c, a);
    forall x ensures x in h'.free[d] <==> IsFree(h', d, x) {
      assert x in h.free[d] <==> IsFree(h, d, x);
    }
  }

  lemma PushPage(h: Heap, a: nat, q: nat)
    requires SmallLive(h, a)
    ensures PageOk(Push(h, h.pages[PageOf(a)].cls, a), q)
  {
    var c := h.pages[PageOf(a)].cls;
    var h' := Push(h, c, a);
    assert LiveOk(h, a) && PageOk(h, q) && PageOk(h, PageOf(a));
    FreeInHere(h'.live, h.live, PageOf(a), c, a);
    forall x ensures Marked(h', x) == Marked(h, x) {
    }
    if q in h.pages && h.pages[q].Small? && q != PageOf(a) {
      FreeInElsewhere(h.live, h'.live, q, h.pages[q].cls, a);
    }
  }

  lemma PushKeeps(h: Heap, a: nat)
    requires SmallLive(h, a)
    ensures Inv(Push(h, h.pages[PageOf(a)].cls, a))
  {
    var h' := Push(h, h.pages[PageOf(a)].cls, a);
    forall d: nat ensures FreeOk(h', d) {
      if d < CLASSES { PushFree(h, a, d); }
    }
    forall q: nat ensures PageOk(h', q) {
      PushPage(h, a, q);
    }
    forall x: nat ensures LiveOk(h', x) {
      assert LiveOk(h, x);
    }
    forall q: nat, r: nat ensures PagesApart(h', q, r) {
      assert PagesApart(h, q, r);
    }
  }

  /** A page all of whose blocks are free holds nothing handed out. */
  ghost predicate WhollyFree(h: Heap, p: nat) {
    forall a :: a in h.live ==> PageOf(a) != p
  }

  lemma FullCount(h: Heap, p: nat)
    requires Inv(h) && p in h.pages && h.pages[p].Small? && h.pages[p].cls < CLASSES
    ensures h.pages[p].count == Total(h.pages[p].cls) <==> WhollyFree(h, p)
    ensures h.pageCount[h.pages[p].cls] > 0
  {
    var c := h.pages[p].cls;
    assert PageOk(h, p) && FreeOk(h, c);
    FreeInAll(h.live, p, c, Total(c));
    assert p in ClassPages(h.pages, c);
    forall a | a in h.live && PageOf(a) == p ensures exists i :: 0 <= i < Total(c) && Block(p, i, c) == a {
      assert LiveOk(h, a);
      BlockIs(a, p, c);
      assert Block(p, IndexOf(a, c), c) == a;
    }
    forall i | 0 <= i < Total(c) ensures PageOf(Block(p, i, c)) == p {
      BlockInPage(p, i, c);
    }
  }

  lemma ShrinkFree(h: Heap, p: nat, d: nat)
    requires Inv(h) && p in h.pages && h.pages[p].Small? && h.pages[p].cls < CLASSES && WhollyFree(h, p) && d < CLASSES
    requires h.pageCount[h.pages[p].cls] > 0
    ensures FreeOk(Shrink(h, h.pages[p].cls, p), d)
  {
    var c := h.pages[p].cls;
    var h' := Shrink(h, c, p);
    assert FreeOk(h, d) && PageOk(h, p) && Marked(h, p);
    MarkPagesIs(h, p, 1, false, p);
    ClassPagesDrop(h.pages, p, d);
    if d == c {
      RemoveAllIs(h.free[c], p, c, Total(c));
    }
    forall a ensures a in h'.free[d] <==> IsFree(h', d, a) {
      assert a in h.free[d] <==> IsFree(h, d, a);
      if IsBlock(a, p, c) { BlockIs(a, p, c); }
    }
  }

  /** The pages n from p on leave the heap, and nothing handed out is in them. */
  lemma DropKeeps(h: Heap, h': Heap, p: nat)
    requires Inv(h) && p in h.pages && WhollyFree(h, p) && h'.pages == h.pages - {p} && h'.live == h.live && h'.base == h.base
    requires h'.kmap == MarkPages(h, p, Pages(h.pages[p]), false).kmap
    ensures (forall a :: LiveOk(h', a)) && (forall q :: PageOk(h', q)) && (forall q, r :: PagesApart(h', q, r))
  {
    var n := Pages(h.pages[p]);
    assert PageOk(h, p);
    assert Marked(h, p) && Marked(h, p + n - 1);
    forall x: nat ensures Marked(h', x) == (Marked(h, x) && !(p <= x < p + n)) {
      MarkPagesIs(h, p, n, false, x);
    }
    forall q: nat ensures PageOk(h', q) {
      assert PageOk(h, q) && PagesApart(h, p, q) && PagesApart(h, q, p);
    }
    forall a: nat ensures LiveOk(h', a) {
      assert LiveOk(h, a);
    }
    forall q: nat, r: nat ensures PagesApart(h', q, r) {
      assert PagesApart(h, q, r);
    }
  }

  lemma ShrinkKeeps(h: Heap, p: nat)
    requires Inv(h) && p in h.pages && h.pages[p].Small? && h.pages[p].cls < CLASSES && WhollyFree(h, p)
    requires h.pageCount[h.pages[p].cls] > 0
    ensures Inv(Shrink(h, h.pages[p].cls, p))
  {
    var h' := Shrink(h, h.pages[p].cls, p);
    assert PageOk(h, p) && Marked(h, p);
    MarkPagesIs(h, p, 1, false, p);
    forall d: nat ensures FreeOk(h', d) {
      if d < CLASSES { ShrinkFree(h, p, d); }
    }
    DropKeeps(h, h', p);
  }

  /** The heap without a large allocation that is still to be taken out of the page map. */
  lemma LargeOut(h: Heap, a: nat)
    requires Inv(h) && a in h.live && PageOf(a) in h.pages && h.pages[PageOf(a)].Large?
    ensures Inv(h.(live := h.live - {a})) && WhollyFree(h.(live := h.live - {a}), PageOf(a))
  {
    var g := h.(live := h.live - {a});
    assert LiveOk(h, a);
    forall x: nat ensures LiveOk(g, x) {
      assert LiveOk(h, x);
    }
    forall q: nat ensures PageOk(g, q) {
      assert PageOk(h, q);
      forall x ensures Marked(g, x) == Marked(h, x) {
      }
      if q in h.pages && h.pages[q].Small? {
        FreeInElsewhere(h.live, g.live, q, h.pages[q].cls, a);
      }
    }
    forall q: nat, r: nat ensures PagesApart(g, q, r) {
      assert PagesApart(h, q, r);
    }
    forall c: nat ensures FreeOk(g, c) {
      assert FreeOk(h, c);
    }
    forall x | x in g.live ensures PageOf(x) != PageOf(a) {
      assert LiveOk(h, x);
    }
  }

  lemma LargeFreeKeeps(h: Heap, a: nat)
    requires Inv(h) && a in h.live && PageOf(a) in h.pages && h.pages[PageOf(a)].Large?
    ensures Inv(Kfree(h, a))
  {
    var p := PageOf(a);
    var g, h' := h.(live := h.live - {a}), Kfree(h, a);
    LargeOut(h, a);
    assert PageOk(h, p) && Marked(h, p) && Marked(h, p + h.pages[p].count - 1);
    MarkPagesIs(h, p, h.pages[p].count, false, p);
    MarkPagesIs(g, p, h.pages[p].count, false, p);
    SameMarks(h, g, p, h.pages[p].count, false);
    DropKeeps(g, h', p);
    forall c: nat ensures FreeOk(h', c) {
      assert FreeOk(g, c);
      ClassPagesDrop(g.pages, p, c);
      if c < CLASSES {
        forall x ensures x in h'.free[c] <==> IsFree(h', c, x) {
          assert x in g.free[c] <==> IsFree(g, c, x);
        }
      }
    }
  }

  lemma {:induction false} SameMarks(h: Heap, g: Heap, p: nat, n: nat, value: bool)
    requires g.kmap == h.kmap && g.base == h.base
    ensures MarkPages(g, p, n, value).kmap == MarkPages(h, p, n, value).kmap
    ensures MarkPages(g, p, n, value).base == h.base && MarkPages(h, p, n, value).base == h.base
  {
    if n > 0 { SameMarks(h, g, p, n - 1, value); }
  }

  /** kfree takes back exactly one allocation; a page leaves the heap only when nothing in it is
      handed out any more, all bits it clears were set, and no class falls below its reserve. */
  lemma KfreeKeeps(h: Heap, a: nat)
    requires Inv(h) && a in h.live
    ensures PageOf(a) in h.pages && (h.pages[PageOf(a)].Small? ==> h.pages[PageOf(a)].cls < CLASSES)
    ensures Inv(Kfree(h, a)) && Kfree(h, a).live == h.live - {a}
    ensures forall q :: q in h.pages && q !in Kfree(h, a).pages ==> WhollyFree(Kfree(h, a), q)
    ensures forall c :: 0 <= c < CLASSES && Kfree(h, a).pageCount[c] < h.pageCount[c] ==> Kfree(h, a).pageCount[c] >= BUF_COUNT
  {
    assert LiveOk(h, a);
    var p := PageOf(a);
    if h.pages[p].Large? {
      LargeFreeKeeps(h, a);
      LargeOut(h, a);
      MarkPagesKeeps(h, p, h.pages[p].count, false);
    } else {
      var c := h.pages[p].cls;
      var f := Push(h, c, a);
      PushKeeps(h, a);
      FullCount(f, p);
      if f.pages[p].count == Total(c) && f.pageCount[c] > BUF_COUNT {
        ShrinkKeeps(f, p);
        MarkPagesKeeps(f, p, 1, false);
      }
    }
  }

  lemma {:induction false} MarkPagesKeeps(h: Heap, p: nat, n: nat, value: bool)
    ensures MarkPages(h, p, n, value) == h.(kmap := MarkPages(h, p, n, value).kmap)
  {
    if n > 0 { MarkPagesKeeps(h, p, n - 1, value); }
  }

  // ---------------------------------------------------------------- runs

  datatype Op = Malloc(size: u32) | Free(a: nat)

  ghost predicate Step(h: Heap, op: Op, h': Heap) {
    |h.free| == CLASSES == |h.pageCount| &&
    match op
    case Malloc(size) => size + ARENA < 0x1_0000_0000 && Kmalloc(h, size).Some? && h' == Kmalloc(h, size).value.0
    case Free(a) =>
      a in h.live && PageOf(a) in h.pages && (h.pages[PageOf(a)].Small? ==> h.pages[PageOf(a)].cls < CLASSES) && h' == Kfree(h, a)
  }

  lemma StepKeeps(h: Heap, op: Op, h': Heap)
    requires Inv(h) && Step(h, op, h')
    ensures Inv(h')
  {
    match op
    case Malloc(size) => KmallocKeeps(h, size);
    case Free(a) => KfreeKeeps(h, a);
  }

  /** From a heap in order, any run of kmalloc and kfree leaves a heap in order; and then what is
      handed out never overlaps. */
  lemma {:induction false} RunKeeps(states: seq<Heap>, ops: seq<Op>, n: nat)
    requires |states| == |ops| + 1 && n <= |ops| && Inv(states[0])
    requires forall i :: 0 <= i < |ops| ==> Step(states[i], ops[i], states[i + 1])
    ensures Inv(states[n])
    ensures forall a, b :: a in states[n].live && b in states[n].live && a < b ==> a + states[n].live[a] <= b
  {
    if n > 0 {
      RunKeeps(states, ops, n - 1);
      StepKeeps(states[n - 1], ops[n - 1], states[n]);
    }
    forall a, b | a in states[n].live && b in states[n].live && a < b ensures a + states[n].live[a] <= b {
      LiveApart(states[n], a, b);
    }
  }

  /** What arena_init leaves. */
  lemma EmptyHeap(kmap: seq<bool>, base: nat)
    ensures Inv(Heap(map[], seq(CLASSES, _ => []), seq(CLASSES, _ => 0), kmap, base, map[]))
  {
    forall c: nat | c < CLASSES ensures ClassPages(map[], c) == {} {
    }
  }
}
