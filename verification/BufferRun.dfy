/** The buffer cache refines a plain disk, over any sequential run. */
module BufferRun {
  import opened Words
  import opened Lists
  import opened Buffer

  // ---------------------------------------------------------------- finding a block

  lemma {:induction false} SearchFinds(bufs: seq<Buf>, chain: seq<nat>, k: Key)
    ensures var r := Search(bufs, chain, k);
      (r.Some? ==> r.value in chain && r.value < |bufs| && bufs[r.value].key == k) &&
      (r.None? ==> forall b :: b in chain && b < |bufs| ==> bufs[b].key != k)
  {
    if chain != [] {
      SearchFinds(bufs, chain[1..], k);
      assert chain == [chain[0]] + chain[1..];
    }
  }

  /** The hash table finds the buffer of a block exactly when there is one. */
  lemma LocateFinds(c: Cache, k: Key)
    requires Inv(c)
    ensures Locate(c, k).Some? ==> Locate(c, k).value < |c.bufs| && Locate(c, k).value !in c.free && c.bufs[Locate(c, k).value].key == k
    ensures forall b :: 0 <= b < |c.bufs| && b !in c.free && c.bufs[b].key == k ==> Locate(c, k) == Some(b)
  {
    SearchFinds(c.bufs, c.hash[Hash(k)], k);
    var r := Locate(c, k);
    if r.Some? {
      assert BufOk(c, r.value);
      assert InChains(c, r.value);
    }
    forall b: nat | b < |c.bufs| && b !in c.free && c.bufs[b].key == k ensures r == Some(b) {
      assert BufOk(c, b);
      assert OneFor(c, b, r.value);
    }
  }

  // ---------------------------------------------------------------- a hit

  lemma HitKeeps(c: Cache, k: Key)
    requires Inv(c) && Locate(c, k).Some?
    ensures Inv(Hit(c, Locate(c, k).value))
  {
    LocateFinds(c, k);
    var b := Locate(c, k).value;
    var c' := Hit(c, b);
    forall x: nat ensures BufOk(c', x) {
      assert BufOk(c, x);
      assert InChains(c', x) == InChains(c, x);
    }
    forall h: nat ensures ChainOk(c', h) {
      assert ChainOk(c, h);
    }
    forall x: nat, y: nat ensures OneFor(c', x, y) {
      assert OneFor(c, x, y);
    }
  }

  // ---------------------------------------------------------------- a miss

  lemma {:induction false} FreshIs(n: nat)
    ensures |Fresh(n)| == n && forall i :: 0 <= i < n ==> Fresh(n)[i] == Buf(NO_KEY, 0, false, false, [])
  {
    if n > 0 { FreshIs(n - 1); }
  }

  lemma {:induction false} DownwardIs(from: nat, n: nat)
    ensures |Downward(from, n)| == n && forall i :: 0 <= i < n ==> Downward(from, n)[i] == from + n - 1 - i
  {
    if n > 0 { DownwardIs(from, n - 1); }
  }

  lemma DownwardHolds(from: nat, n: nat)
    ensures NoDup(Downward(from, n)) && forall x: nat :: x in Downward(from, n) <==> from <= x < from + n
  {
    DownwardIs(from, n);
    forall x: nat | from <= x < from + n ensures x in Downward(from, n) {
      assert Downward(from, n)[from + n - 1 - x] == x;
    }
  }

  lemma AllocBuf(c: Cache, x: nat)
    requires Inv(c) && c.free == []
    ensures BufOk(Alloc(c), x)
  {
    var c', n := Alloc(c), |c.bufs|;
    FreshIs(c.perPage);
    DownwardHolds(n, c.perPage);
    assert BufOk(c, x);
    assert InChains(c', x) == InChains(c, x);
    if InChains(c, x) {
      var h :| 0 <= h < |c.hash| && x in c.hash[h];
      assert ChainOk(c, h);
    }
  }

  /** buffer_alloc: the number of buffers never exceeds the limit. */
  lemma AllocKeeps(c: Cache)
    requires Inv(c) && |c.bufs| < MAX_BUF_COUNT && c.free == []
    ensures Inv(Alloc(c)) && Alloc(c).free != []
  {
    hide BufOk, Fresh, Downward;
    var c', n := Alloc(c), |c.bufs|;
    FreshIs(c.perPage);
    DownwardHolds(n, c.perPage);
    DownwardIs(n, c.perPage);
    forall x: nat ensures BufOk(c', x) {
      AllocBuf(c, x);
    }
    forall h: nat ensures ChainOk(c', h) {
      assert ChainOk(c, h);
    }
    forall x: nat, y: nat ensures OneFor(c', x, y) {
      assert OneFor(c, x, y);
    }
  }

  /** A run never ends in a deadlock: as long as not all buffers are held, one can be taken. */
  lemma AvailableWhen(c: Cache)
    requires Inv(c)
    ensures Available(c) <==> |c.bufs| < MAX_BUF_COUNT || exists b :: 0 <= b < |c.bufs| && c.bufs[b].count == 0
  {
    if |c.bufs| < MAX_BUF_COUNT && c.free == [] {
      AllocKeeps(c);
    }
    if c.free != [] {
      assert c.free[0] in c.free && BufOk(c, c.free[0]);
    } else if c.idle != [] {
      assert c.idle[0] in c.idle && BufOk(c, c.idle[0]);
    }
    forall b | 0 <= b < |c.bufs| && c.bufs[b].count == 0 ensures c.free != [] || c.idle != [] {
      assert BufOk(c, b);
    }
    if |c.bufs| < MAX_BUF_COUNT && c.free != [] {
      assert Refilled(c).free != [];
    }
  }

  lemma RefilledKeeps(c: Cache)
    requires Inv(c) && Available(c)
    ensures Inv(Refilled(c)) && Refilled(c).hash == c.hash && Refilled(c).disk == c.disk && c.bufs <= Refilled(c).bufs
    ensures Victim(c) < |Refilled(c).bufs| && BufAt(Refilled(c), Victim(c)).count == 0
    ensures Victim(c) in Refilled(c).free || Victim(c) in Refilled(c).idle
    ensures forall x :: |c.bufs| <= x < |Refilled(c).bufs| ==> x in Refilled(c).free
  {
    var r := Refilled(c);
    if |c.bufs| < MAX_BUF_COUNT && c.free == [] {
      AllocKeeps(c);
      FreshIs(c.perPage);
      DownwardHolds(|c.bufs|, c.perPage);
    }
    assert Victim(c) in r.free || Victim(c) in r.idle;
    assert BufOk(r, Victim(c));
  }

  /** The lists and the buffer after a miss. */
  ghost predicate Taken(r: Cache, c': Cache, b: nat, k: Key) {
    b < |r.bufs| && |c'.bufs| == |r.bufs| && c'.perPage == r.perPage && c'.disk == r.disk &&
    c'.bufs == r.bufs[b := r.bufs[b].(key := k, count := 1, valid := false)] &&
    NoDup(c'.free) && NoDup(c'.idle) &&
    (forall x :: x in c'.free <==> x in r.free && x != b) && (forall x :: x in c'.idle <==> x in r.idle && x != b) &&
    c'.hash == Rehash(r, b, r.bufs[b].key, k).hash
  }

  lemma MissTakes(c: Cache, k: Key)
    requires Inv(c) && Available(c)
    ensures Taken(Refilled(c), Miss(c, k), Victim(c), k)
  {
    RefilledKeeps(c);
    var r, b := Refilled(c), Victim(c);
    if r.free != [] { FrontHolds(r.free); } else { FrontHolds(r.idle); }
    assert BufOk(r, b);
    forall x ensures x in Miss(c, k).free <==> x in r.free && x != b {
    }
  }

  /** Which chains a buffer is in after a miss. */
  lemma RehashIn(r: Cache, b: nat, k: Key, x: nat, h: nat)
    requires Inv(r) && b < |r.bufs| && h < HASH_COUNT
    ensures |Rehash(r, b, r.bufs[b].key, k).hash| == HASH_COUNT && NoDup(Rehash(r, b, r.bufs[b].key, k).hash[h])
    ensures x in Rehash(r, b, r.bufs[b].key, k).hash[h] <==> if x == b then h == Hash(k) else x in r.hash[h]
  {
    assert ChainOk(r, h);
    var old_ := Hash(r.bufs[b].key);
    assert ChainOk(r, old_);
    assert b in r.hash[h] ==> h == old_;
    var out := r.hash[old_ := Without(r.hash[old_], b)];
    assert NoDup(out[h]) && (x in out[h] <==> x != b && x in r.hash[h]) && b !in out[h];
  }

  lemma TakenKeeps(r: Cache, c': Cache, b: nat, k: Key)
    requires Inv(r) && Taken(r, c', b, k) && (b in r.free || b in r.idle)
    requires forall x :: 0 <= x < |r.bufs| && x !in r.free && x != b ==> r.bufs[x].key != k
    ensures Inv(c')
  {
    forall x: nat ensures BufOk(c', x) {
      TakenBuf(r, c', b, k, x);
    }
    forall h: nat ensures ChainOk(c', h) {
      if h < HASH_COUNT {
        RehashIn(r, b, k, b, h);
        assert ChainOk(r, h);
        forall x | x in c'.hash[h] ensures x < |c'.bufs| && Hash(c'.bufs[x].key) == h {
          RehashIn(r, b, k, x, h);
        }
      }
    }
    forall x: nat, y: nat ensures OneFor(c', x, y) {
      assert OneFor(r, x, y);
    }
    RehashIn(r, b, k, b, 0);
  }

  lemma TakenBuf(r: Cache, c': Cache, b: nat, k: Key, x: nat)
    requires Inv(r) && Taken(r, c', b, k) && (b in r.free || b in r.idle)
    ensures BufOk(c', x)
  {
    assert BufOk(r, x) && BufOk(r, b);
    RehashIn(r, b, k, x, 0);
    if x < |r.bufs| {
      RehashIn(r, b, k, x, Hash(c'.bufs[x].key));
      forall h: nat | h < HASH_COUNT ensures x in c'.hash[h] <==> if x == b then h == Hash(k) else x in r.hash[h] {
        RehashIn(r, b, k, x, h);
      }
      assert x != b && InChains(c', x) ==> InChains(r, x);
    }
  }

  /** A block that no buffer holds gets one, and no other block loses its contents: the victim
      was clean. */
  lemma MissKeeps(c: Cache, k: Key)
    requires Inv(c) && Available(c) && Locate(c, k).None?
    ensures Inv(Miss(c, k))
  {
    RefilledKeeps(c);
    MissTakes(c, k);
    LocateFinds(c, k);
    var r := Refilled(c);
    forall x | 0 <= x < |r.bufs| && x !in r.free ensures r.bufs[x].key != k {
      assert x < |c.bufs| && r.bufs[x] == c.bufs[x];
      assert BufOk(c, x) && BufOk(r, x);
    }
    TakenKeeps(r, Miss(c, k), Victim(c), k);
  }

  // ---------------------------------------------------------------- steps on one held buffer

  /** Only buffer b changes, and it keeps its block; what other blocks have on disk stays. */
  ghost predicate Touched(c: Cache, c': Cache, b: nat) {
    b < |c.bufs| && c'.bufs == c.bufs[b := BufAt(c', b)] && BufAt(c', b).key == c.bufs[b].key &&
    c'.hash == c.hash && c'.free == c.free && c'.perPage == c.perPage &&
    forall k :: k != c.bufs[b].key ==> OnDisk(c', k) == OnDisk(c, k)
  }

  /** It stays held, or goes to the idle list clean. */
  lemma TouchedKeeps(c: Cache, c': Cache, b: nat)
    requires Inv(c) && Touched(c, c', b) && c.bufs[b].count > 0
    requires var f := BufAt(c', b);
      f.count >= 0 && c'.idle == (if f.count == 0 then [b] + c.idle else c.idle) && (f.count == 0 ==> !f.dirty) &&
      (f.valid && !f.dirty ==> f.data == OnDisk(c', f.key))
    ensures Inv(c')
  {
    assert BufOk(c, b);
    forall x: nat ensures BufOk(c', x) {
      assert BufOk(c, x);
      assert InChains(c', x) == InChains(c, x);
      if x < |c.bufs| && x != b && x !in c.free {
        assert OneFor(c, x, b);
      }
    }
    forall h: nat ensures ChainOk(c', h) {
      assert ChainOk(c, h);
    }
    forall x: nat, y: nat ensures OneFor(c', x, y) {
      assert OneFor(c, x, y);
    }
  }

  lemma BwriteTouches(c: Cache, b: nat)
    requires Inv(c) && b < |c.bufs| && c.bufs[b].count > 0
    ensures var w := Bwrite(c, b);
      Touched(c, w, b) && w.idle == c.idle && BufAt(w, b).count == c.bufs[b].count && !BufAt(w, b).dirty &&
      BufAt(w, b).data == c.bufs[b].data && (c.bufs[b].valid ==> BufAt(w, b).valid && OnDisk(w, c.bufs[b].key) == c.bufs[b].data) &&
      (BufAt(w, b).valid ==> OnDisk(w, c.bufs[b].key) == c.bufs[b].data)
  {
    assert BufOk(c, b);
  }

  lemma BwriteKeeps(c: Cache, b: nat)
    requires Inv(c) && b < |c.bufs| && c.bufs[b].count > 0
    ensures Inv(Bwrite(c, b))
  {
    BwriteTouches(c, b);
    TouchedKeeps(c, Bwrite(c, b), b);
  }

  lemma BrelseKeeps(c: Cache, b: nat)
    requires Inv(c) && b < |c.bufs| && c.bufs[b].count > 0
    ensures Inv(Brelse(c, b))
  {
    BwriteTouches(c, b);
    TouchedKeeps(c, Brelse(c, b), b);
  }

  // ---------------------------------------------------------------- the plain disk

  /** A block in use: by how many, and what they see of it. */
  datatype Shared = Shared(users: nat, data: Data)

  /** A disk whose blocks are opened, changed and given back, without any buffers. */
  datatype PlainDisk = PlainDisk(disk: imap<Key, Data>, inUse: imap<Key, Shared>)

  function PlainData(a: PlainDisk, k: Key): Data {
    if k in a.disk then a.disk[k] else []
  }

  function PlainOpen(a: PlainDisk, k: Key): PlainDisk {
    a.(inUse := a.inUse[k := if k in a.inUse then Shared(a.inUse[k].users + 1, a.inUse[k].data) else Shared(1, PlainData(a, k))])
  }

  function PlainModify(a: PlainDisk, k: Key, data: Data): PlainDisk {
    if k in a.inUse then a.(inUse := a.inUse[k := a.inUse[k].(data := data)]) else a
  }

  function PlainFlush(a: PlainDisk, k: Key): PlainDisk {
    if k in a.inUse then a.(disk := a.disk[k := a.inUse[k].data]) else a
  }

  ghost function PlainRelease(a: PlainDisk, k: Key): PlainDisk {
    if k !in a.inUse then a
    else if a.inUse[k].users > 1 then PlainFlush(a, k).(inUse := a.inUse[k := a.inUse[k].(users := a.inUse[k].users - 1)])
    else PlainFlush(a, k).(inUse := imap x | x in a.inUse && x != k :: a.inUse[x])
  }

  /** A block is in use exactly when some buffer of it is held, by as many and with the same
      contents. */
  ghost predicate UseOk(c: Cache, a: PlainDisk, k: Key) {
    (k in a.inUse <==> Locate(c, k).Some? && BufAt(c, Locate(c, k).value).count > 0) &&
    (k in a.inUse ==> var f := BufAt(c, Locate(c, k).value); f.valid && a.inUse[k] == Shared(f.count, f.data)) &&
    PlainData(a, k) == OnDisk(c, k)
  }

  ghost predicate Refines(c: Cache, a: PlainDisk) {
    Inv(c) && forall k :: UseOk(c, a, k)
  }

  /** What Locate finds is settled by the buffers alone. */
  lemma LocateIs(c: Cache, k: Key, b: nat)
    requires Inv(c) && b < |c.bufs| && b !in c.free && c.bufs[b].key == k
    ensures Locate(c, k) == Some(b)
  {
    LocateFinds(c, k);
  }

  /** A step on buffer b leaves all other blocks as they were. */
  lemma TouchedOthers(c: Cache, c': Cache, b: nat, k: Key)
    requires Inv(c) && Inv(c') && Touched(c, c', b) && k != c.bufs[b].key
    ensures Locate(c', k) == Locate(c, k) && OnDisk(c', k) == OnDisk(c, k)
    ensures Locate(c, k).Some? ==> BufAt(c', Locate(c, k).value) == BufAt(c, Locate(c, k).value)
  {
    LocateFinds(c, k);
    LocateFinds(c', k);
    if Locate(c, k).Some? {
      LocateIs(c', k, Locate(c, k).value);
    } else if Locate(c', k).Some? {
      LocateIs(c, k, Locate(c', k).value);
    }
  }

  // ---------------------------------------------------------------- bread

  lemma GetblkGets(c: Cache, k: Key)
    requires Inv(c) && (Locate(c, k).Some? || Available(c))
    ensures Inv(Getblk(c, k).0) && Getblk(c, k).1 < |Getblk(c, k).0.bufs| && Getblk(c, k).1 !in Getblk(c, k).0.free
    ensures BufAt(Getblk(c, k).0, Getblk(c, k).1) ==
      (if Locate(c, k).Some? then BufAt(c, Locate(c, k).value).(count := BufAt(c, Locate(c, k).value).count + 1)
       else BufAt(Refilled(c), Victim(c)).(key := k, count := 1, valid := false))
    ensures BufAt(Getblk(c, k).0, Getblk(c, k).1).key == k && Getblk(c, k).0.disk == c.disk
    ensures Locate(c, k).None? ==> !BufAt(Getblk(c, k).0, Getblk(c, k).1).dirty
  {
    LocateFinds(c, k);
    if Locate(c, k).Some? {
      HitKeeps(c, k);
    } else {
      RefilledKeeps(c);
      MissTakes(c, k);
      MissKeeps(c, k);
      assert BufOk(Refilled(c), Victim(c));
    }
  }

  /** Blocks in use are not disturbed by getting another. */
  lemma GetblkOthers(c: Cache, k: Key, x: nat)
    requires Inv(c) && (Locate(c, k).Some? || Available(c))
    requires x < |c.bufs| && c.bufs[x].count > 0 && c.bufs[x].key != k
    ensures BufAt(Getblk(c, k).0, x) == c.bufs[x] && x != Getblk(c, k).1
  {
    LocateFinds(c, k);
    if Locate(c, k).None? {
      RefilledKeeps(c);
      MissTakes(c, k);
    }
  }

  lemma GetblkNew(c: Cache, k: Key, x: nat)
    requires Inv(c) && (Locate(c, k).Some? || Available(c))
    requires var g := Getblk(c, k).0; x < |g.bufs| && g.bufs[x].count > 0 && x != Getblk(c, k).1
    ensures x < |c.bufs| && c.bufs[x] == Getblk(c, k).0.bufs[x]
  {
    LocateFinds(c, k);
    if Locate(c, k).None? {
      RefilledKeeps(c);
      MissTakes(c, k);
      assert BufOk(Refilled(c), x);
    }
  }

  lemma GetblkUse(c: Cache, k: Key, a: PlainDisk, k': Key)
    requires Refines(c, a) && (Locate(c, k).Some? || Available(c)) && k' != k
    ensures UseOk(Getblk(c, k).0, a, k')
  {
    var (g, b) := Getblk(c, k);
    assert UseOk(c, a, k');
    GetblkGets(c, k);
    LocateFinds(c, k');
    LocateFinds(g, k');
    if k' in a.inUse {
      var x := Locate(c, k').value;
      GetblkOthers(c, k, x);
      assert BufOk(g, x);
      LocateIs(g, k', x);
    } else if Locate(g, k').Some? && BufAt(g, Locate(g, k').value).count > 0 {
      var x := Locate(g, k').value;
      GetblkNew(c, k, x);
    }
  }

  /** The buffer gotten by a successful bread, before and after the device is read. */
  lemma FilledUse(c: Cache, k: Key, a: PlainDisk)
    requires Refines(c, a) && (Locate(c, k).Some? || Available(c)) && !BufAt(Getblk(c, k).0, Getblk(c, k).1).valid
    ensures k !in a.inUse && BufAt(Getblk(c, k).0, Getblk(c, k).1).count == 1 && !BufAt(Getblk(c, k).0, Getblk(c, k).1).dirty
  {
    GetblkGets(c, k);
    LocateFinds(c, k);
    assert UseOk(c, a, k);
    if Locate(c, k).Some? {
      assert BufOk(c, Locate(c, k).value);
    }
  }

  lemma BreadHits(c: Cache, k: Key, a: PlainDisk)
    requires Refines(c, a) && (Locate(c, k).Some? || Available(c)) && BufAt(Getblk(c, k).0, Getblk(c, k).1).valid
    ensures Refines(Getblk(c, k).0, PlainOpen(a, k))
    ensures BufAt(Getblk(c, k).0, Getblk(c, k).1).data == if k in a.inUse then a.inUse[k].data else PlainData(a, k)
  {
    var (g, b) := Getblk(c, k);
    GetblkGets(c, k);
    LocateFinds(c, k);
    assert UseOk(c, a, k) && BufOk(c, b);
    forall k' ensures UseOk(g, PlainOpen(a, k), k') {
      if k' == k {
        LocateIs(g, k, b);
      } else {
        GetblkUse(c, k, a, k');
        assert PlainData(PlainOpen(a, k), k') == PlainData(a, k');
      }
    }
  }

  /** The device is read into a buffer that holds nothing yet. */
  lemma ReadIntoRefines(g: Cache, b: nat, k: Key, ok: bool, a: PlainDisk)
    requires Inv(g) && b < |g.bufs| && b !in g.free && BufAt(g, b).key == k && BufAt(g, b).count == 1
    requires !BufAt(g, b).valid && !BufAt(g, b).dirty
    requires k !in a.inUse && PlainData(a, k) == OnDisk(g, k) && forall k' :: k' != k ==> UseOk(g, a, k')
    ensures var (c', r) := ReadInto(g, b, k, ok);
      Refines(c', if ok then PlainOpen(a, k) else a) && r == (if ok then Some(b) else None) &&
      (ok ==> BufAt(c', b).data == PlainData(a, k))
  {
    var c', a' := ReadInto(g, b, k, ok).0, if ok then PlainOpen(a, k) else a;
    if ok { TouchedKeeps(g, c', b); } else { BrelseKeeps(g, b); }
    forall k' ensures UseOk(c', a', k') {
      if k' == k {
        LocateIs(c', k, b);
      } else {
        TouchedOthers(g, c', b, k');
        assert UseOk(g, a, k');
      }
    }
  }

  /** bread returns a buffer of the block asked for, with what its users see, or else what was
      last given back; if the device fails, nothing has happened. */
  lemma BreadRefines(c: Cache, k: Key, ok: bool, a: PlainDisk)
    requires Refines(c, a) && (Locate(c, k).Some? || Available(c))
    ensures var (c', r) := Bread(c, k, ok);
      if r.Some? then
        Refines(c', PlainOpen(a, k)) && BufAt(c', r.value).key == k && r.value < |c'.bufs| && BufAt(c', r.value).count > 0 &&
        BufAt(c', r.value).data == PlainOpen(a, k).inUse[k].data
      else Refines(c', a) && !ok && k !in a.inUse
  {
    hide Inv, Refines, Getblk, Brelse;
    GetblkIs(c, k, a);
    if BufAt(Getblk(c, k).0, Getblk(c, k).1).valid {
      BreadHits(c, k, a);
    } else {
      BreadReads(c, k, ok, a);
    }
  }

  lemma BreadReads(c: Cache, k: Key, ok: bool, a: PlainDisk)
    requires Refines(c, a) && (Locate(c, k).Some? || Available(c)) && !BufAt(Getblk(c, k).0, Getblk(c, k).1).valid
    ensures k !in a.inUse
    ensures var (c', r) := Bread(c, k, ok);
      Refines(c', if ok then PlainOpen(a, k) else a) && r == (if ok then Some(Getblk(c, k).1) else None) &&
      (ok ==> BufAt(c', Getblk(c, k).1).data == PlainData(a, k))
  {
    var (g, b) := Getblk(c, k);
    GetblkGets(c, k);
    FilledUse(c, k, a);
    assert UseOk(c, a, k);
    forall k' | k' != k ensures UseOk(g, a, k') {
      GetblkUse(c, k, a, k');
    }
    ReadIntoRefines(g, b, k, ok, a);
  }

  lemma GetblkIs(c: Cache, k: Key, a: PlainDisk)
    requires Refines(c, a) && (Locate(c, k).Some? || Available(c))
    ensures var (g, b) := Getblk(c, k); b < |g.bufs| && g.bufs[b].key == k && g.bufs[b].count > 0
  {
    GetblkGets(c, k);
    LocateFinds(c, k);
    if Locate(c, k).Some? { assert BufOk(c, Locate(c, k).value); }
  }

  // ---------------------------------------------------------------- after a wait

  /** The block got no other buffer while the task waited. */
  predicate NoOther(c: Cache, k: Key)
    requires c.idle != []
  {
    Locate(c, k) == None || Locate(c, k) == Some(Last(c.idle))
  }

  lemma WokenTakes(c: Cache, k: Key)
    requires Inv(c) && c.idle != []
    ensures Last(c.idle) in c.idle && Taken(c, Woken(c, k), Last(c.idle), k)
    ensures BufAt(c, Last(c.idle)).count == 0 && !BufAt(c, Last(c.idle)).dirty && Last(c.idle) !in c.free
  {
    FrontHolds(c.idle);
    assert BufOk(c, Last(c.idle));
  }

  /** What is true of the others stays true of them. */
  lemma TakenUse(c: Cache, g: Cache, b: nat, k: Key, a: PlainDisk, k': Key)
    requires Refines(c, a) && Inv(g) && Taken(c, g, b, k) && b in c.idle && BufAt(c, b).count == 0 && k' != k
    ensures UseOk(g, a, k')
  {
    assert UseOk(c, a, k');
    LocateFinds(c, k');
    LocateFinds(g, k');
    forall x: nat | x < |g.bufs| && x !in g.free && g.bufs[x].key == k'
      ensures Locate(c, k') == Some(x) && c.bufs[x] == g.bufs[x]
    {
      LocateIs(c, k', x);
    }
    if k' in a.inUse {
      LocateIs(g, k', Locate(c, k').value);
    }
  }

  lemma WokenKeeps(c: Cache, k: Key)
    requires Inv(c) && c.idle != [] && NoOther(c, k)
    ensures Inv(Woken(c, k))
  {
    var b := Last(c.idle);
    WokenTakes(c, k);
    LocateFinds(c, k);
    TakenKeeps(c, Woken(c, k), b, k);
  }

  /** Two buffers in use for one block. */
  ghost predicate Twice(c: Cache, x: nat, y: nat) {
    x != y && x < |c.bufs| && y < |c.bufs| && x !in c.free && y !in c.free && c.bufs[x].key == c.bufs[y].key
  }

  lemma WokenDoubles(c: Cache, k: Key, ok: bool)
    requires Inv(c) && c.idle != [] && !NoOther(c, k)
    ensures Twice(Resume(c, k, ok).0, Last(c.idle), Locate(c, k).value)
  {
    WokenTakes(c, k);
    LocateFinds(c, k);
  }

  /** A task that waited does not look its block up again.  What it then does is a read of the
      plain disk exactly when the block got no other buffer meanwhile; if it did, the block now has
      two. */
  lemma ResumeRefines(c: Cache, k: Key, ok: bool, a: PlainDisk)
    requires Refines(c, a) && c.idle != []
    ensures Inv(Resume(c, k, ok).0) <==> NoOther(c, k)
    ensures NoOther(c, k) ==> Refines(Resume(c, k, ok).0, if ok then PlainOpen(a, k) else a)
    ensures !NoOther(c, k) ==> Twice(Resume(c, k, ok).0, Last(c.idle), Locate(c, k).value)
  {
    if NoOther(c, k) {
      var g, b := Woken(c, k), Last(c.idle);
      WokenTakes(c, k);
      WokenKeeps(c, k);
      assert UseOk(c, a, k);
      forall k' | k' != k ensures UseOk(g, a, k') {
        TakenUse(c, g, b, k, a, k');
      }
      ReadIntoRefines(g, b, k, ok, a);
    } else {
      WokenDoubles(c, k, ok);
      assert !OneFor(Resume(c, k, ok).0, Last(c.idle), Locate(c, k).value);
    }
  }

  // ---------------------------------------------------------------- changing, writing, giving back

  /** A held buffer is the one that Locate finds. */
  lemma HeldIs(c: Cache, b: nat, a: PlainDisk)
    requires Refines(c, a) && b < |c.bufs| && c.bufs[b].count > 0
    ensures var k := c.bufs[b].key; Locate(c, k) == Some(b) && k in a.inUse && c.bufs[b].valid && a.inUse[k] == Shared(c.bufs[b].count, c.bufs[b].data)
  {
    assert BufOk(c, b);
    LocateIs(c, c.bufs[b].key, b);
    assert UseOk(c, a, c.bufs[b].key);
  }

  lemma ModifyRefines(c: Cache, b: nat, data: Data, a: PlainDisk)
    requires Refines(c, a) && b < |c.bufs| && c.bufs[b].count > 0
    ensures Refines(Modify(c, b, data), PlainModify(a, c.bufs[b].key, data))
  {
    var c', k := Modify(c, b, data), c.bufs[b].key;
    HeldIs(c, b, a);
    TouchedKeeps(c, c', b);
    assert BufOk(c, b);
    forall k' ensures UseOk(c', PlainModify(a, k, data), k') {
      assert UseOk(c, a, k');
      if k' == k { LocateIs(c', k, b); } else { TouchedOthers(c, c', b, k'); }
    }
  }

  lemma FlushRefines(c: Cache, b: nat, a: PlainDisk)
    requires Refines(c, a) && b < |c.bufs| && c.bufs[b].count > 0
    ensures Refines(Bwrite(c, b), PlainFlush(a, c.bufs[b].key))
  {
    var c', k := Bwrite(c, b), c.bufs[b].key;
    HeldIs(c, b, a);
    BwriteTouches(c, b);
    BwriteKeeps(c, b);
    assert BufOk(c, b);
    forall k' ensures UseOk(c', PlainFlush(a, k), k') {
      assert UseOk(c, a, k');
      if k' == k { LocateIs(c', k, b); } else { TouchedOthers(c, c', b, k'); }
    }
  }

  lemma ReleaseOne(c: Cache, b: nat, a: PlainDisk)
    requires Refines(c, a) && b < |c.bufs| && c.bufs[b].count > 0
    ensures UseOk(Brelse(c, b), PlainRelease(a, c.bufs[b].key), c.bufs[b].key)
  {
    hide Locate, Search, Touched, OneFor, ListsOk, ChainOk;
    HeldIs(c, b, a);
    BwriteTouches(c, b);
    BrelseKeeps(c, b);
    assert BufOk(c, b);
    LocateIs(Brelse(c, b), c.bufs[b].key, b);
  }

  lemma ReleaseOther(c: Cache, b: nat, a: PlainDisk, k: Key)
    requires Refines(c, a) && b < |c.bufs| && c.bufs[b].count > 0 && k != c.bufs[b].key
    ensures UseOk(Brelse(c, b), PlainRelease(a, c.bufs[b].key), k)
  {
    hide Locate, Search, OneFor, ListsOk, ChainOk, BufOk;
    HeldIs(c, b, a);
    assert UseOk(c, a, k);
    BwriteTouches(c, b);
    BrelseKeeps(c, b);
    TouchedOthers(c, Brelse(c, b), b, k);
  }

  lemma ReleaseRefines(c: Cache, b: nat, a: PlainDisk)
    requires Refines(c, a) && b < |c.bufs| && c.bufs[b].count > 0
    ensures Refines(Brelse(c, b), PlainRelease(a, c.bufs[b].key))
  {
    hide Inv, UseOk, Brelse, PlainRelease;
    BrelseKeeps(c, b);
    forall k ensures UseOk(Brelse(c, b), PlainRelease(a, c.bufs[b].key), k) {
      if k == c.bufs[b].key { ReleaseOne(c, b, a); } else { ReleaseOther(c, b, a, k); }
    }
  }

  // ---------------------------------------------------------------- runs

  /** The cache, and the blocks of the tasks that wait for a buffer. */
  datatype Machine = Machine(cache: Cache, waiting: seq<Key>)

  datatype Op =
    | Read(k: Key, ok: bool)
    | Waits(k: Key)
    | Resumes(i: nat, ok: bool)
    | Write(b: nat, data: Data)
    | Flush(b: nat)
    | Release(b: nat)

  predicate Enabled(m: Machine, op: Op) {
    var c := m.cache;
    match op
    case Read(k, _) => Locate(c, k).Some? || Available(c)
    case Waits(k) => Locate(c, k).None? && !Available(c)
    case Resumes(i, _) => i < |m.waiting| && c.idle != []
    case Write(b, _) => b < |c.bufs| && c.bufs[b].count > 0
    case Flush(b) => b < |c.bufs| && c.bufs[b].count > 0
    case Release(b) => b < |c.bufs| && c.bufs[b].count > 0
  }

  function Do(m: Machine, op: Op): Machine
    requires Enabled(m, op)
  {
    var c := m.cache;
    match op
    case Read(k, ok) => m.(cache := Bread(c, k, ok).0)
    case Waits(k) => m.(waiting := m.waiting + [k])
    case Resumes(i, ok) => Machine(Resume(c, m.waiting[i], ok).0, m.waiting[..i] + m.waiting[i + 1..])
    case Write(b, data) => m.(cache := Modify(c, b, data))
    case Flush(b) => m.(cache := Bwrite(c, b))
    case Release(b) => m.(cache := Brelse(c, b))
  }

  ghost function PlainDo(m: Machine, a: PlainDisk, op: Op): PlainDisk
    requires Enabled(m, op)
  {
    var c := m.cache;
    match op
    case Read(k, ok) => if Bread(c, k, ok).1.Some? then PlainOpen(a, k) else a
    case Waits(_) => a
    case Resumes(i, ok) => if ok then PlainOpen(a, m.waiting[i]) else a
    case Write(b, data) => PlainModify(a, c.bufs[b].key, data)
    case Flush(b) => PlainFlush(a, c.bufs[b].key)
    case Release(b) => PlainRelease(a, c.bufs[b].key)
  }

  /** A task goes on after a wait only while its block has no other buffer. */
  predicate Safe(m: Machine, op: Op)
    requires Enabled(m, op)
  {
    op.Resumes? ==> NoOther(m.cache, m.waiting[op.i])
  }

  lemma DoRefines(m: Machine, a: PlainDisk, op: Op)
    requires Refines(m.cache, a) && Enabled(m, op)
    ensures Refines(Do(m, op).cache, PlainDo(m, a, op)) <==> Safe(m, op)
  {
    hide Bread, Resume, Modify, Bwrite, Brelse, PlainOpen, PlainModify, PlainFlush, PlainRelease, Inv, UseOk, NoOther, Available;
    match op
    case Read(k, ok) => BreadRefines(m.cache, k, ok, a);
    case Waits(_) =>
    case Resumes(i, ok) => ResumeRefines(m.cache, m.waiting[i], ok, a);
    case Write(b, data) => ModifyRefines(m.cache, b, data, a);
    case Flush(b) => FlushRefines(m.cache, b, a);
    case Release(b) => ReleaseRefines(m.cache, b, a);
  }

  ghost predicate Run(states: seq<Machine>, plain: seq<PlainDisk>, ops: seq<Op>) {
    |states| == |ops| + 1 == |plain| &&
    forall i :: 0 <= i < |ops| ==>
      Enabled(states[i], ops[i]) && states[i + 1] == Do(states[i], ops[i]) && plain[i + 1] == PlainDo(states[i], plain[i], ops[i])
  }

  /** In every run in which no task goes on after a wait while its block has another buffer, the
      cache stays in order and behaves as the plain disk does. */
  lemma {:induction false} RunRefines(states: seq<Machine>, plain: seq<PlainDisk>, ops: seq<Op>, n: nat)
    requires Run(states, plain, ops) && Refines(states[0].cache, plain[0]) && n <= |ops|
    requires forall i :: 0 <= i < n ==> Safe(states[i], ops[i])
    ensures Refines(states[n].cache, plain[n])
  {
    hide Refines, Do, PlainDo, Enabled, Safe;
    if n > 0 {
      RunRefines(states, plain, ops, n - 1);
      DoRefines(states[n - 1], plain[n - 1], ops[n - 1]);
    }
  }

  function EmptyCache(perPage: nat, disk: imap<Key, Data>): Cache {
    Cache([], [], [], seq(HASH_COUNT, _ => []), perPage, disk)
  }

  /** What buffer_init leaves. */
  lemma EmptyRefines(perPage: nat, disk: imap<Key, Data>)
    requires perPage == 4 || perPage == 2 || perPage == 1
    ensures Refines(EmptyCache(perPage, disk), PlainDisk(disk, imap[]))
  {
    var c := EmptyCache(perPage, disk);
    assert Inv(c);
    forall k ensures UseOk(c, PlainDisk(disk, imap[]), k) {
      LocateFinds(c, k);
    }
  }

  // ---------------------------------------------------------------- a block with two buffers

  /** Tasks hold the first n blocks of a list, one each. */
  ghost predicate Holding(c: Cache, ks: seq<Key>, n: nat) {
    n <= |ks| && |c.bufs| == |c.free| + n && c.idle == [] &&
    forall b: nat :: b < |c.bufs| && b !in c.free ==> c.bufs[b].count == 1 && c.bufs[b].key in ks[..n]
  }

  lemma HoldingNew(c: Cache, ks: seq<Key>, n: nat)
    requires Inv(c) && Holding(c, ks, n) && n < |ks| && NoDup(ks)
    ensures Locate(c, ks[n]).None? && (Available(c) <==> n < MAX_BUF_COUNT)
  {
    LocateFinds(c, ks[n]);
    AvailableWhen(c);
    if |c.bufs| == MAX_BUF_COUNT && n < MAX_BUF_COUNT {
      assert c.free[0] in c.free && BufOk(c, c.free[0]);
    }
    if n >= MAX_BUF_COUNT {
      assert c.free == [];
    }
  }

  lemma HoldingOneMore(c: Cache, ks: seq<Key>, n: nat)
    requires Inv(c) && Holding(c, ks, n) && n < |ks| && NoDup(ks) && n < MAX_BUF_COUNT
    ensures Locate(c, ks[n]).None? && Available(c)
    ensures Holding(Bread(c, ks[n], true).0, ks, n + 1)
  {
    HoldingNew(c, ks, n);
    RefilledKeeps(c);
    MissTakes(c, ks[n]);
    RefilledCounts(c);
    assert ks[..n + 1] == ks[..n] + [ks[n]];
    hide Inv, Rehash, Locate;
  }

  lemma RefilledCounts(c: Cache)
    ensures |Refilled(c).bufs| - |Refilled(c).free| == |c.bufs| - |c.free| && Refilled(c).idle == c.idle
  {
    FreshIs(c.perPage);
    DownwardIs(|c.bufs|, c.perPage);
  }

  lemma ExtendRun(states: seq<Machine>, plain: seq<PlainDisk>, ops: seq<Op>, op: Op)
    returns (states': seq<Machine>, plain': seq<PlainDisk>)
    requires Run(states, plain, ops) && Enabled(states[|ops|], op)
    ensures Run(states', plain', ops + [op])
    ensures states' == states + [Do(states[|ops|], op)] && plain' == plain + [PlainDo(states[|ops|], plain[|ops|], op)]
  {
    hide Do, PlainDo, Enabled;
    states' := states + [Do(states[|ops|], op)];
    plain' := plain + [PlainDo(states[|ops|], plain[|ops|], op)];
  }

  lemma {:induction false} Hold(ks: seq<Key>, n: nat, perPage: nat, disk: imap<Key, Data>)
    returns (states: seq<Machine>, plain: seq<PlainDisk>, ops: seq<Op>)
    requires (perPage == 4 || perPage == 2 || perPage == 1) && n <= |ks| && NoDup(ks) && n <= MAX_BUF_COUNT
    ensures Run(states, plain, ops) && |ops| == n && |states| == |plain| == n + 1 && states[0] == Machine(EmptyCache(perPage, disk), [])
    ensures Refines(states[n].cache, plain[n]) && Holding(states[n].cache, ks, n) && states[n].waiting == []
  {
    hide UseOk, BufOk, Bread, PlainDo;
    if n == 0 {
      states, plain, ops := [Machine(EmptyCache(perPage, disk), [])], [PlainDisk(disk, imap[])], [];
      EmptyRefines(perPage, disk);
    } else {
      states, plain, ops := Hold(ks, n - 1, perPage, disk);
      var m, op := states[n - 1], Read(ks[n - 1], true);
      HoldingOneMore(m.cache, ks, n - 1);
      DoRefines(m, plain[n - 1], op);
      states, plain := ExtendRun(states, plain, ops, op);
      ops := ops + [op];
    }
  }

  /** A buffer given back to a cache in which all are held, and taken by a task that waited for
      block k. */
  lemma HandOver(c: Cache, b: nat, k: Key, a: PlainDisk)
    requires Refines(c, a) && c.idle == [] && b < |c.bufs| && c.bufs[b].count == 1 && c.bufs[b].key != k
    ensures var r := Brelse(c, b);
      r.idle == [b] && Locate(r, k) == Locate(c, k) && Refines(r, PlainRelease(a, c.bufs[b].key)) &&
      var c' := Resume(r, k, true).0;
      |c'.bufs| == |c.bufs| && c'.free == c.free && c'.idle == [] && c'.bufs[b].key == k && c'.bufs[b].count == 1 &&
      forall x :: 0 <= x < |c.bufs| && x != b ==> c'.bufs[x] == c.bufs[x]
  {
    var r := Brelse(c, b);
    ReleaseRefines(c, b, a);
    BwriteTouches(c, b);
    TouchedOthers(c, r, b, k);
    WokenTakes(r, k);
  }

  /** The first two buffers are given back and go to two tasks that waited for the same block. */
  lemma TakenTwice(c: Cache, k: Key, a: PlainDisk) returns (r: Cache, c1: Cache, r1: Cache, c2: Cache)
    requires Refines(c, a) && c.idle == [] && Locate(c, k).None? && |c.bufs| > 1
    requires c.bufs[0].count == 1 && c.bufs[1].count == 1
    ensures r == Brelse(c, 0) && r.idle != [] && c1 == Resume(r, k, true).0 && |c1.bufs| > 1 && c1.bufs[1].count > 0
    ensures r1 == Brelse(c1, 1) && r1.idle != [] && c2 == Resume(r1, k, true).0 && Twice(c2, 1, 0) && !Inv(c2)
  {
    assert BufOk(c, 0) && BufOk(c, 1);
    LocateFinds(c, k);
    HandOver(c, 0, k, a);
    r := Brelse(c, 0);
    var a1 := PlainRelease(a, c.bufs[0].key);
    ResumeRefines(r, k, true, a1);
    c1 := Resume(r, k, true).0;
    LocateIs(c1, k, 0);
    hide Brelse, Resume, Inv, UseOk, PlainRelease, PlainOpen, Locate;
    HandOver(c1, 1, k, PlainOpen(a1, k));
    r1 := Brelse(c1, 1);
    ResumeRefines(r1, k, true, PlainRelease(PlainOpen(a1, k), c1.bufs[1].key));
    c2 := Resume(r1, k, true).0;
  }

  /** Tasks read as many blocks as there are buffers; then two tasks ask for one more, and two of
      the first tasks give up theirs.  The block asked for ends up with two buffers. */
  lemma TwoBuffers(ks: seq<Key>, perPage: nat, disk: imap<Key, Data>)
    returns (states: seq<Machine>, plain: seq<PlainDisk>, ops: seq<Op>)
    requires (perPage == 4 || perPage == 2 || perPage == 1) && |ks| == MAX_BUF_COUNT + 1 && NoDup(ks)
    ensures Run(states, plain, ops) && states[0] == Machine(EmptyCache(perPage, disk), []) && |ops| == MAX_BUF_COUNT + 6
    ensures ops[MAX_BUF_COUNT..] == WaitingOps(Last(ks))
    ensures Twice(states[|ops|].cache, 1, 0) && !Inv(states[|ops|].cache)
  {
    hide Refines, Inv, Holding, Run, Twice, EmptyCache, NoDup, Available, Locate;
    var n := MAX_BUF_COUNT;
    var first;
    states, plain, first := Hold(ks, n, perPage, disk);
    AllHeld(states[n].cache, ks, plain[n]);
    states, plain, ops := TwoWaiters(states, plain, first, Last(ks));
    assert ops[n..] == WaitingOps(Last(ks));
  }

  function WaitingOps(k: Key): seq<Op> {
    [Waits(k), Waits(k), Release(0), Resumes(0, true), Release(1), Resumes(0, true)]
  }

  lemma TwoWaiters(states: seq<Machine>, plain: seq<PlainDisk>, ops: seq<Op>, k: Key)
    returns (states': seq<Machine>, plain': seq<PlainDisk>, ops': seq<Op>)
    requires Run(states, plain, ops) && |states| == |plain| == |ops| + 1 && states[|ops|].waiting == []
    requires var c := states[|ops|].cache;
      Refines(c, plain[|ops|]) && !Available(c) && c.idle == [] && Locate(c, k).None? && |c.bufs| > 1 &&
      c.bufs[0].count == 1 && c.bufs[1].count == 1
    ensures Run(states', plain', ops') && |states'| == |ops'| + 1 && states'[0] == states[0] && ops' == ops + WaitingOps(k)
    ensures Twice(states'[|ops'|].cache, 1, 0) && !Inv(states'[|ops'|].cache)
  {
    hide Refines, Inv, Locate, Available, Brelse, Resume, PlainDo, Twice, Run;
    var c := states[|ops|].cache;
    var r, c1, r1, c2 := TakenTwice(c, k, plain[|ops|]);
    hide Safe, EmptyCache, Bread, Modify, Bwrite, Refilled, Search, Hash, WaitingOps;
    states', plain', ops' := AddOp(states, plain, ops, Waits(k), Machine(c, [k]));
    states', plain', ops' := AddOp(states', plain', ops', Waits(k), Machine(c, [k, k]));
    states', plain', ops' := AddOp(states', plain', ops', Release(0), Machine(r, [k, k]));
    states', plain', ops' := AddOp(states', plain', ops', Resumes(0, true), Machine(c1, [k]));
    states', plain', ops' := AddOp(states', plain', ops', Release(1), Machine(r1, [k]));
    states', plain', ops' := AddOp(states', plain', ops', Resumes(0, true), Machine(c2, []));
    WaitingIs(ops, k);
  }

  lemma WaitingIs(ops: seq<Op>, k: Key)
    ensures ops + WaitingOps(k) ==
      ops + [Waits(k)] + [Waits(k)] + [Release(0)] + [Resumes(0, true)] + [Release(1)] + [Resumes(0, true)]
  {
  }

  lemma AllHeld(c: Cache, ks: seq<Key>, a: PlainDisk)
    requires Refines(c, a) && Holding(c, ks, MAX_BUF_COUNT) && |ks| == MAX_BUF_COUNT + 1 && NoDup(ks)
    ensures !Available(c) && Locate(c, Last(ks)).None? && c.idle == [] && |c.bufs| > 1
    ensures c.bufs[0].count == 1 && c.bufs[1].count == 1
  {
    HoldingNew(c, ks, MAX_BUF_COUNT);
    assert c.free == [];
  }

  /** A run with one more operation, which leads to m. */
  lemma AddOp(states: seq<Machine>, plain: seq<PlainDisk>, ops: seq<Op>, op: Op, m: Machine)
    returns (states': seq<Machine>, plain': seq<PlainDisk>, ops': seq<Op>)
    requires Run(states, plain, ops) && Enabled(states[|ops|], op) && Do(states[|ops|], op) == m
    ensures Run(states', plain', ops') && ops' == ops + [op] && |states'| == |ops'| + 1 && states'[|ops'|] == m && states'[0] == states[0]
  {
    states', plain' := ExtendRun(states, plain, ops, op);
    ops' := ops + [op];
  }
}
