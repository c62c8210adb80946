/** The kernel heap updated in place: arena.c, and scan_page and reset_page of memory.c. */
module KernelHeap {
  import opened Words
  import opened Lists
  import opened Heap
  import opened HeapRun
  import Bitmap

  /** Setting a run of the bit map is marking the pages. */
  lemma {:induction false} FilledIsMarked(h: Heap, p: nat, n: nat)
    requires h.base <= p && p + n <= h.base + |h.kmap|
    ensures MarkPages(h, p, n, true) == h.(kmap := Bitmap.Filled(h.kmap, p - h.base, n))
  {
    MarkPagesKeeps(h, p, n, true);
    var m := MarkPages(h, p, n, true);
    MarkPagesIs(h, p, n, true, p);
    forall i | 0 <= i < |h.kmap| ensures m.kmap[i] == Bitmap.Filled(h.kmap, p - h.base, n)[i] {
      MarkPagesIs(h, p, n, true, h.base + i);
      assert Marked(m, h.base + i) == m.kmap[i];
    }
  }

  /** div_round_up, in 32 bits. */
  function DivRoundUp(num: u32, size: u32): nat
    requires size > 0
  {
    (num + size - 1) % 0x1_0000_0000 / size
  }

  lemma MarkNone(h: Heap, p: nat)
    ensures MarkPages(h, p, 0, false) == h
  {
  }

  /** Marked pages are in the map. */
  lemma MarksIn(h: Heap, p: nat, n: nat)
    requires forall q :: p <= q < p + n ==> Marked(h, q)
    ensures n > 0 ==> h.base <= p && p + n <= h.base + |h.kmap|
  {
    assert n > 0 ==> Marked(h, p) && Marked(h, p + n - 1);
  }

  /** One page more is taken back. */
  lemma MarkOne(h: Heap, p: nat, i: nat)
    requires h.base <= p && p + i < h.base + |h.kmap| && Marked(h, p + i)
    ensures var m := MarkPages(h, p, i, false);
      Marked(m, p + i) && |m.kmap| == |h.kmap| && MarkPages(h, p, i + 1, false) == m.(kmap := m.kmap[p + i - h.base := false])
  {
    MarkPagesIs(h, p, i, false, p + i);
  }

  lemma InMap(bytes: seq<bv8>, base: nat, q: nat)
    requires base <= q && q - base < |Bitmap.Bits(bytes)|
    ensures q - base < 8 * |bytes| && Bitmap.Get(bytes, q - base) == Bitmap.Bits(bytes)[q - base]
  {
  }

  class Arenas {
    var pages: map<nat, Header>
    var free: seq<seq<nat>>
    var pageCount: seq<nat>
    const bits: array<bv8>
    const base: nat
    ghost var live: map<nat, nat>

    ghost function State(): Heap
      reads this, bits
    {
      Heap(pages, free, pageCount, Bitmap.Bits(bits[..]), base, live)
    }

    ghost predicate Separate() {
      var a: object, b: object := this, bits;
      a != b
    }

    /** alloc_kpage; that a run is found is where the kernel would stop. */
    method AllocPages(n: nat) returns (p: nat)
      requires Separate() && FindPages(State(), n).Some?
      modifies bits
      ensures Some(p) == FindPages(old(State()), n)
      ensures State() == MarkPages(old(State()), p, n, true)
    {
      ghost var h := State();
      FindPagesFinds(h, n);
      var m := new Bitmap.Map.Make(bits, base);
      p := m.Scan(n);
      FilledIsMarked(h, p, n);
    }

    /** free_kpage; the assertion of reset_page on each bit is its precondition. */
    method FreePages(p: nat, n: nat)
      requires Separate() && forall q :: p <= q < p + n ==> Marked(State(), q)
      modifies bits
      ensures State() == MarkPages(old(State()), p, n, false)
    {
      hide MarkPages, Bitmap.Bits, Bitmap.Get;
      ghost var h := State();
      MarksIn(h, p, n);
      MarkNone(h, p);
      var m := new Bitmap.Map.Make(bits, base);
      var i := 0;
      while i < n
        invariant 0 <= i <= n && State() == MarkPages(h, p, i, false)
      {
        MarkOne(h, p, i);
        InMap(bits[..], base, p + i);
        var bit := m.Test(p + i);
        assert bit;
        m.Set(p + i, false);
        i := i + 1;
      }
    }

    /** The page that kmalloc adds to a class. */
    method AddPage(c: nat)
      requires Separate() && c < CLASSES && |free| == CLASSES && |pageCount| == CLASSES && FindPages(State(), 1).Some?
      modifies this, bits
      ensures State() == Grow(old(State()), c, FindPages(old(State()), 1).value)
    {
      ghost var h := State();
      var p := AllocPages(1);
      MarkPagesKeeps(h, p, 1, true);
      pageCount := pageCount[c := pageCount[c] + 1];
      pages := pages[p := Small(c, Total(c))];
      var i := 0;
      ghost var list := free[c];
      while i < Total(c)
        invariant 0 <= i <= Total(c) && |free| == CLASSES && free == old(free)[c := PushAll(list, p, c, i)]
        invariant pages == old(pages)[p := Small(c, Total(c))] && pageCount == old(pageCount)[c := old(pageCount)[c] + 1]
        invariant live == old(live) && Bitmap.Bits(bits[..]) == MarkPages(h, p, 1, true).kmap
      {
        free := free[c := [Block(p, i, c)] + free[c]];
        i := i + 1;
      }
    }

    /** kmalloc of more than 1024 bytes. */
    method MallocPages(size: u32) returns (a: nat)
      requires Separate() && size > 1024 && |free| == CLASSES && |pageCount| == CLASSES && Kmalloc(State(), size).Some?
      modifies this, bits
      ensures Some((State(), a)) == Kmalloc(old(State()), size)
    {
      var asize := (size + ARENA) % 0x1_0000_0000;
      var count := DivRoundUp(asize, PAGE);
      ghost var h := State();
      var p := AllocPages(count);
      MarkPagesKeeps(h, p, count, true);
      pages := pages[p := Large(count)];
      a := p * PAGE + ARENA;
      live := live[a := size];
    }

    /** The head of the free list of class c. */
    method Take(c: nat, size: nat) returns (a: nat)
      requires Separate() && c < CLASSES && |free| == CLASSES && free[c] != []
      requires PageOf(free[c][0]) in pages && pages[PageOf(free[c][0])].count > 0
      modifies this
      ensures (State(), a) == Pop(old(State()), c, size)
    {
      a := free[c][0];
      free := free[c := free[c][1..]];
      var arena := PageOf(a);
      pages := pages[arena := pages[arena].(count := pages[arena].count - 1)];
      live := live[a := size];
    }

    /** kmalloc. */
    method Malloc(size: u32) returns (a: nat)
      requires Separate() && Inv(State()) && Kmalloc(State(), size).Some?
      modifies this, bits
      ensures Some((State(), a)) == Kmalloc(old(State()), size)
    {
      hide FreeOk, PageOk, LiveOk, PagesApart, Pop, Grow, Bitmap.Bits;
      if size > 1024 {
        a := MallocPages(size);
        return;
      }
      var c := 0;
      while BlockSize(c) < size
        invariant 0 <= c < CLASSES && (c > 0 ==> BlockSize(c - 1) < size)
        invariant ClassOf(size, 0) == ClassOf(size, c)
        decreases CLASSES - c
      {
        c := c + 1;
      }
      if free[c] == [] {
        GrowKeeps(State(), c);
        AddPage(c);
      }
      PopKeepsHeader(State(), c);
      a := Take(c, size);
    }

    /** The end of kfree: all blocks of the page leave the free list, and the page the heap. */
    method ReleasePage(c: nat, arena: nat)
      requires Separate() && c < CLASSES && |free| == CLASSES && |pageCount| == CLASSES && pageCount[c] > 0
      requires Marked(State(), arena)
      modifies this, bits
      ensures State() == Shrink(old(State()), c, arena)
    {
      ghost var f := State();
      var i := 0;
      ghost var list := free[c];
      while i < Total(c)
        invariant 0 <= i <= Total(c) && |free| == CLASSES && free == f.free[c := RemoveAll(list, arena, c, i)]
        invariant State() == f.(free := free)
      {
        free := free[c := Without(free[c], Block(arena, i, c))];
        i := i + 1;
      }
      pageCount := pageCount[c := pageCount[c] - 1];
      MarkPagesKeeps(f, arena, 1, false);
      SameMarks(f, State(), arena, 1, false);
      MarkPagesKeeps(State(), arena, 1, false);
      FreePages(arena, 1);
      pages := pages - {arena};
    }

    /** kfree. */
    method Free(ptr: nat)
      requires Separate() && Inv(State()) && ptr in live
      requires PageOf(ptr) in pages && (pages[PageOf(ptr)].Small? ==> pages[PageOf(ptr)].cls < CLASSES)
      modifies this, bits
      ensures State() == Kfree(old(State()), ptr)
    {
      hide FreeOk, LiveOk, PagesApart, Shrink, Bitmap.Bits, MarkPages;
      ghost var h := State();
      var arena := PageOf(ptr);
      assert PageOk(h, arena);
      if pages[arena].Large? {
        MarkPagesKeeps(h, arena, pages[arena].count, false);
        FreePages(arena, pages[arena].count);
        pages := pages - {arena};
        live := live - {ptr};
        return;
      }
      var c := pages[arena].cls;
      PushKeeps(h, ptr);
      FullCount(Push(h, c, ptr), arena);
      assert PageOk(Push(h, c, ptr), arena);
      free := free[c := [ptr] + free[c]];
      pages := pages[arena := pages[arena].(count := pages[arena].count + 1)];
      live := live - {ptr};
      assert State() == Push(h, c, ptr);
      if pages[arena].count == Total(c) && pageCount[c] > BUF_COUNT {
        ReleasePage(c, arena);
      }
    }
  }

  /** The header of the page of a free block is there, and counts at least this one. */
  lemma PopKeepsHeader(h: Heap, c: nat)
    requires Inv(h) && c < CLASSES && h.free[c] != []
    ensures PageOf(h.free[c][0]) in h.pages && h.pages[PageOf(h.free[c][0])].count > 0
  {
    var a := h.free[c][0];
    var p := PageOf(a);
    assert FreeOk(h, c);
    assert a in h.free[c] && IsFree(h, c, a);
    assert PageOk(h, p);
    FreeInHere(h.live, h.live[a := 0], p, c, a);
  }
}
