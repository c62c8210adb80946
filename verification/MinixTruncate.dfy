/** inode_bfree and minix_truncate: every zone of an inode is given back, each once. */
module MinixTruncate {
  import opened Words
  import opened Minix
  import opened MinixZones
  import opened MinixMap

  /** Zone w is reached from zone z, read as an array of zone numbers `level` times. */
  ghost predicate InTree(blocks: seq<Block>, z: nat, level: nat, w: nat)
    decreases level
  {
    z != 0 && (w == z || (level > 0 && exists i: nat :: i < INDEXES && InTree(blocks, Entry(blocks, z, i), level - 1, w)))
  }

  ghost predicate Disjoint(blocks: seq<Block>, z: nat, level: nat, i: nat, j: nat, w: nat)
  {
    i < INDEXES && j < INDEXES && i != j && InTree(blocks, Entry(blocks, z, i), level, w) ==>
      !InTree(blocks, Entry(blocks, z, j), level, w)
  }

  /** The trees of two entries of zone z have no zone in common. */
  ghost predicate AllDisjoint(blocks: seq<Block>, z: nat, level: nat) {
    forall i: nat, j: nat, w: nat :: Disjoint(blocks, z, level, i, j, w)
  }

  /** All zones of the tree are in use, and none occurs in it twice: what inode_bfree needs for
      the bit tests of minix_bfree to hold. */
  ghost predicate TreeOk(fs: Fs, z: nat, level: nat)
    requires Dims(fs)
    decreases level
  {
    z != 0 ==>
      IsData(fs, z) && Used(fs, z) &&
      (level > 0 ==>
        (forall i: nat :: i < INDEXES ==>
          TreeOk(fs, Entry(fs.blocks, z, i), level - 1) && !InTree(fs.blocks, Entry(fs.blocks, z, i), level - 1, z)) &&
        AllDisjoint(fs.blocks, z, level - 1))
  }

  /** A tree stays in order as long as its own zones stay in use. */
  lemma {:induction false} TreeOkFrame(fs: Fs, fs': Fs, z: nat, level: nat)
    requires Dims(fs) && Dims(fs') && fs'.first == fs.first && fs'.zones == fs.zones && fs'.blocks == fs.blocks
    requires TreeOk(fs, z, level) && forall w: nat :: InTree(fs.blocks, z, level, w) ==> Used(fs', w)
    ensures TreeOk(fs', z, level)
    decreases level
  {
    if z != 0 {
      assert InTree(fs.blocks, z, level, z);
      if level > 0 {
        forall i: nat | i < INDEXES ensures TreeOk(fs', Entry(fs.blocks, z, i), level - 1) {
          forall w: nat | InTree(fs.blocks, Entry(fs.blocks, z, i), level - 1, w) ensures Used(fs', w) {
            assert InTree(fs.blocks, z, level, w);
          }
          TreeOkFrame(fs, fs', Entry(fs.blocks, z, i), level - 1);
        }
      }
    }
  }

  // ---------------------------------------------------------------- trees and slots

  /** How deep the tree below a slot is. */
  function Level(s: Slot): nat {
    if !Indirect(s) then 0 else if s == Top(s.k, 8) then 2 else 1
  }

  lemma {:induction false} TreeSlot(fs: Fs, s: Slot, w: nat) returns (t: Slot)
    requires InTable(fs, s) && InTree(fs.blocks, Val(fs, s), Level(s), w)
    ensures InTable(fs, t) && Above(s, t) && Val(fs, t) == w != 0
    decreases Level(s)
  {
    if w == Val(fs, s) {
      t := s;
    } else {
      var i: nat :| i < INDEXES && InTree(fs.blocks, Entry(fs.blocks, Val(fs, s), i), Level(s) - 1, w);
      t := TreeSlot(fs, Child(s, i), w);
    }
  }

  lemma {:induction false} SlotTree(fs: Fs, s: Slot, t: Slot)
    requires InTable(fs, s) && InTable(fs, t) && Above(s, t) && Val(fs, t) != 0
    ensures InTree(fs.blocks, Val(fs, s), Level(s), Val(fs, t))
    decreases Level(s)
  {
    if s != t {
      var c := if Parent(t) == s then t else Parent(t);
      assert c == Child(s, IndexIn(c)) && Val(fs, c) == Via(fs, Val(fs, s), IndexIn(c));
      assert t != c ==> Val(fs, t) == Via(fs, Val(fs, c), IndexIn(t));
      SlotTree(fs, c, t);
      assert InTree(fs.blocks, Entry(fs.blocks, Val(fs, s), IndexIn(c)), Level(s) - 1, Val(fs, t));
    }
  }

  /** Trees under slots neither of which is above the other have no zone in common. */
  lemma TreesApart(fs: Fs, s: Slot, t: Slot, w: nat)
    requires Inv(fs) && InTable(fs, s) && InTable(fs, t) && !(exists u :: Above(s, u) && Above(t, u))
    requires InTree(fs.blocks, Val(fs, s), Level(s), w)
    ensures !InTree(fs.blocks, Val(fs, t), Level(t), w)
  {
    var u := TreeSlot(fs, s, w);
    forall v | InTable(fs, v) && Above(t, v) ensures Val(fs, v) != w {
      assert Same(fs, u, v);
    }
    if InTree(fs.blocks, Val(fs, t), Level(t), w) {
      var v := TreeSlot(fs, t, w);
    }
  }

  lemma {:induction false} SlotTreeOk(fs: Fs, s: Slot)
    requires Inv(fs) && InTable(fs, s)
    ensures TreeOk(fs, Val(fs, s), Level(s))
    decreases Level(s)
  {
    var z, level := Val(fs, s), Level(s);
    if z != 0 && level > 0 {
      forall i: nat | i < INDEXES
        ensures TreeOk(fs, Entry(fs.blocks, z, i), level - 1) && !InTree(fs.blocks, Entry(fs.blocks, z, i), level - 1, z)
      {
        SlotTreeOk(fs, Child(s, i));
        NotInOwnTree(fs, s, i);
      }
      var below := level - 1;
      forall i: nat, j: nat, w: nat ensures Disjoint(fs.blocks, z, below, i, j, w) {
        if i < INDEXES && j < INDEXES && i != j && InTree(fs.blocks, Entry(fs.blocks, z, i), level - 1, w) {
          TreesApart(fs, Child(s, i), Child(s, j), w);
        }
      }
    }
  }

  lemma NotInOwnTree(fs: Fs, s: Slot, i: nat)
    requires Inv(fs) && InTable(fs, s) && Indirect(s) && i < INDEXES && Val(fs, s) != 0
    ensures !InTree(fs.blocks, Val(fs, Child(s, i)), Level(Child(s, i)), Val(fs, s))
  {
    forall t | InTable(fs, t) && Above(Child(s, i), t) ensures Val(fs, t) != Val(fs, s) {
      assert Same(fs, s, t);
    }
    if InTree(fs.blocks, Val(fs, Child(s, i)), Level(Child(s, i)), Val(fs, s)) {
      var t := TreeSlot(fs, Child(s, i), Val(fs, s));
    }
  }

  // ---------------------------------------------------------------- what truncation does

  ghost predicate Owned(fs: Fs, k: nat, w: nat) {
    exists s :: InTable(fs, s) && s.k == k && Val(fs, s) == w
  }

  const NO_ZONES: seq<u16> := [0, 0, 0, 0, 0, 0, 0, 0, 0]

  /** minix_truncate: the inode is empty, and of the zone map exactly the bits of its zones
      are cleared; the zones themselves are not touched. */
  ghost predicate Truncated(fs: Fs, fs': Fs, k: nat)
    requires Dims(fs) && k < |fs.inodes|
  {
    Dims(fs') && fs' == fs.(zmap := fs'.zmap, inodes := fs.inodes[k := fs.inodes[k].(zone := NO_ZONES, size := 0)]) &&
    fs'.zmap[0] == fs.zmap[0] &&
    forall w: nat :: IsData(fs, w) ==> Used(fs', w) == (Used(fs, w) && !Owned(fs, k, w))
  }

  lemma TruncatedVal(fs: Fs, fs': Fs, k: nat, t: Slot)
    requires Dims(fs) && k < |fs.inodes| && Truncated(fs, fs', k)
    ensures InTable(fs', t) == InTable(fs, t)
    ensures InTable(fs, t) ==> Val(fs', t) == if t.k == k then 0 else Val(fs, t)
  {
  }

  /** After truncation the zones of the inode are free, all other inodes keep theirs, and
      ownership is exact again. */
  lemma TruncateKeeps(fs: Fs, fs': Fs, k: nat)
    requires Inv(fs) && k < |fs.inodes| && Truncated(fs, fs', k)
    ensures Inv(fs')
    ensures forall t :: InTable(fs, t) ==> Val(fs', t) == if t.k == k then 0 else Val(fs, t)
  {
    forall t ensures InTable(fs', t) == InTable(fs, t) && (InTable(fs, t) ==> Val(fs', t) == if t.k == k then 0 else Val(fs, t)) {
      TruncatedVal(fs, fs', k, t);
    }
    forall t, u ensures Same(fs', t, u) {
      assert Same(fs, t, u);
    }
    forall t | InTable(fs', t) && Val(fs', t) != 0 ensures IsData(fs', Val(fs', t)) && Used(fs', Val(fs', t)) {
      forall s | InTable(fs, s) && s.k == k ensures Val(fs, s) != Val(fs, t) {
        assert Same(fs, s, t);
      }
    }
    forall z: nat | IsData(fs', z) && Used(fs', z) ensures Reached(fs', z) {
      assert Reached(fs, z);
      var t :| InTable(fs, t) && Val(fs, t) == z;
      assert t.k != k && InTable(fs', t) && Val(fs', t) == z;
    }
  }

  /** The zones given back are not cleared: free zones read as zeros afterwards exactly when
      all zones of the inode happened to be zero. */
  lemma TruncateDirties(fs: Fs, fs': Fs, k: nat)
    requires Inv(fs) && FreeZonesClean(fs) && k < |fs.inodes| && Truncated(fs, fs', k)
    ensures FreeZonesClean(fs') <==> forall w: nat :: IsData(fs, w) && Owned(fs, k, w) ==> Zeroed(fs.blocks[w])
  {
    forall w: nat | IsData(fs, w) && Owned(fs, k, w) ensures Used(fs, w) && !Used(fs', w) {
      var s :| InTable(fs, s) && s.k == k && Val(fs, s) == w;
      assert Val(fs, s) != 0;
    }
    if FreeZonesClean(fs') {
      forall w: nat | IsData(fs, w) && Owned(fs, k, w) ensures Zeroed(fs.blocks[w]) {
        assert IsData(fs', w) && !Used(fs', w);
      }
    }
  }

  // ---------------------------------------------------------------- inode_bfree, step by step

  /** The zones of the tree are free, all else is as before. */
  ghost predicate FreedTree(fs: Fs, fs': Fs, z: nat, level: nat)
    requires Dims(fs)
  {
    Dims(fs') && fs' == fs.(zmap := fs'.zmap) &&
    forall w: nat :: Used(fs', w) == (Used(fs, w) && !InTree(fs.blocks, z, level, w))
  }

  ghost predicate InFirst(blocks: seq<Block>, z: nat, level: nat, n: nat, w: nat) {
    exists i: nat :: i < n && InTree(blocks, Entry(blocks, z, i), level, w)
  }

  /** The trees of the first n entries of zone z are free. */
  ghost predicate FreedFirst(fs: Fs, fs': Fs, z: nat, level: nat, n: nat)
    requires Dims(fs)
  {
    Dims(fs') && fs' == fs.(zmap := fs'.zmap) &&
    forall w: nat :: Used(fs', w) == (Used(fs, w) && !InFirst(fs.blocks, z, level, n, w))
  }

  lemma NextTreeOk(fs: Fs, cur: Fs, z: nat, level: nat, n: nat)
    requires Dims(fs) && z != 0 && TreeOk(fs, z, level + 1) && n < INDEXES && FreedFirst(fs, cur, z, level, n)
    ensures TreeOk(cur, Entry(fs.blocks, z, n), level)
  {
    assert TreeOk(fs, Entry(fs.blocks, z, n), level);
    AllUsed(fs, Entry(fs.blocks, z, n), level);
    forall w: nat | InTree(fs.blocks, Entry(fs.blocks, z, n), level, w) ensures Used(cur, w) {
      forall i: nat | i < n ensures !InTree(fs.blocks, Entry(fs.blocks, z, i), level, w) {
        assert Disjoint(fs.blocks, z, level, n, i, w);
      }
    }
    TreeOkFrame(fs, cur, Entry(fs.blocks, z, n), level);
  }

  lemma {:induction false} AllUsed(fs: Fs, z: nat, level: nat)
    requires Dims(fs) && TreeOk(fs, z, level)
    ensures forall w: nat :: InTree(fs.blocks, z, level, w) ==> IsData(fs, w) && Used(fs, w)
    decreases level
  {
    if z != 0 && level > 0 {
      forall i: nat | i < INDEXES
        ensures forall w: nat :: InTree(fs.blocks, Entry(fs.blocks, z, i), level - 1, w) ==> IsData(fs, w) && Used(fs, w)
      {
        AllUsed(fs, Entry(fs.blocks, z, i), level - 1);
      }
    }
  }

  lemma FreedNext(fs: Fs, cur: Fs, next: Fs, z: nat, level: nat, n: nat)
    requires Dims(fs) && FreedFirst(fs, cur, z, level, n) && FreedTree(cur, next, Entry(fs.blocks, z, n), level)
    ensures FreedFirst(fs, next, z, level, n + 1)
  {
    forall w: nat
      ensures InFirst(fs.blocks, z, level, n + 1, w) <==>
        InFirst(fs.blocks, z, level, n, w) || InTree(fs.blocks, Entry(fs.blocks, z, n), level, w)
    {
    }
  }

  /** Last of all the zone z itself is given back; its bit still is set. */
  lemma FreedWhole(fs: Fs, cur: Fs, z: nat, level: nat)
    requires Dims(fs) && z != 0 && TreeOk(fs, z, level)
    requires if level == 0 then cur == fs else FreedFirst(fs, cur, z, level - 1, INDEXES)
    ensures Used(cur, z) && FreedTree(fs, Mark(cur, z, false), z, level)
  {
    forall w: nat ensures InTree(fs.blocks, z, level, w) <==>
      w == z || (level > 0 && InFirst(fs.blocks, z, level - 1, INDEXES, w))
    {
    }
  }

  // ---------------------------------------------------------------- minix_truncate, step by step

  ghost predicate InTops(fs: Fs, k: nat, n: nat, w: nat) {
    exists i: nat :: i < n && InTree(fs.blocks, Val(fs, Top(k, i)), Level(Top(k, i)), w)
  }

  /** zone[0..n) are given back with all below them, and zeroed. */
  ghost predicate TopsFreed(fs: Fs, cur: Fs, k: nat, n: nat)
    requires Dims(fs) && k < |fs.inodes|
  {
    Dims(cur) && |cur.inodes| == |fs.inodes| &&
    cur == fs.(zmap := cur.zmap, inodes := fs.inodes[k := fs.inodes[k].(zone := cur.inodes[k].zone)]) &&
    (forall i :: 0 <= i < 9 ==> cur.inodes[k].zone[i] == if i < n then 0 else fs.inodes[k].zone[i]) &&
    forall w: nat :: Used(cur, w) == (Used(fs, w) && !InTops(fs, k, n, w))
  }

  lemma TopTreeOk(fs: Fs, cur: Fs, k: nat, n: nat)
    requires Inv(fs) && InTable(fs, Top(k, n)) && TopsFreed(fs, cur, k, n)
    ensures TreeOk(cur, Val(fs, Top(k, n)), Level(Top(k, n))) && ZoneOf(cur, k, n) == Val(fs, Top(k, n))
  {
    var s := Top(k, n);
    SlotTreeOk(fs, s);
    AllUsed(fs, Val(fs, s), Level(s));
    forall w: nat | InTree(fs.blocks, Val(fs, s), Level(s), w) ensures Used(cur, w) {
      forall i: nat | i < n ensures !InTree(fs.blocks, Val(fs, Top(k, i)), Level(Top(k, i)), w) {
        TreesApart(fs, s, Top(k, i), w);
      }
    }
    TreeOkFrame(fs, cur, Val(fs, s), Level(s));
  }

  function ClearTop(fs: Fs, k: nat, n: nat): Fs
    requires k < |fs.inodes| && n < |fs.inodes[k].zone|
  {
    fs.(inodes := fs.inodes[k := fs.inodes[k].(zone := fs.inodes[k].zone[n := 0])])
  }

  lemma TopsNext(fs: Fs, cur: Fs, next: Fs, k: nat, n: nat)
    requires Dims(fs) && k < |fs.inodes| && n < 9 && TopsFreed(fs, cur, k, n)
    requires FreedTree(cur, next, Val(fs, Top(k, n)), Level(Top(k, n)))
    ensures TopsFreed(fs, ClearTop(next, k, n), k, n + 1)
  {
    forall w: nat
      ensures InTops(fs, k, n + 1, w) <==> InTops(fs, k, n, w) || InTree(fs.blocks, Val(fs, Top(k, n)), Level(Top(k, n)), w)
    {
    }
    var fs' := ClearTop(next, k, n);
    forall w: nat ensures Used(fs', w) == Used(next, w) {
    }
  }

  lemma OwnedIsInTops(fs: Fs, k: nat, w: nat)
    requires Dims(fs) && k < |fs.inodes| && Owner(fs.inodes[k]) && w != 0
    ensures Owned(fs, k, w) <==> InTops(fs, k, 9, w)
  {
    if Owned(fs, k, w) {
      var t :| InTable(fs, t) && t.k == k && Val(fs, t) == w;
      var s := if t.Top? then t else if t.Mid? then Parent(t) else Parent(Parent(t));
      SlotTree(fs, s, t);
      assert InTree(fs.blocks, Val(fs, Top(k, s.i)), Level(Top(k, s.i)), w);
    }
    if InTops(fs, k, 9, w) {
      var i: nat :| i < 9 && InTree(fs.blocks, Val(fs, Top(k, i)), Level(Top(k, i)), w);
      var t := TreeSlot(fs, Top(k, i), w);
    }
  }

  lemma TopsDone(fs: Fs, cur: Fs, k: nat)
    requires Inv(fs) && k < |fs.inodes| && Owner(fs.inodes[k]) && TopsFreed(fs, cur, k, 9)
    ensures Truncated(fs, cur.(inodes := cur.inodes[k := cur.inodes[k].(size := 0)]), k)
  {
    var fs' := cur.(inodes := cur.inodes[k := cur.inodes[k].(size := 0)]);
    assert cur.inodes[k].zone == NO_ZONES;
    forall w: nat | IsData(fs, w) ensures Used(fs', w) == (Used(fs, w) && !Owned(fs, k, w)) {
      OwnedIsInTops(fs, k, w);
    }
    assert fs'.zmap[0] == fs.zmap[0] by {
      ReservedKept(fs, cur, k);
    }
  }

  /** The reserved bit is of no zone. */
  lemma ReservedKept(fs: Fs, cur: Fs, k: nat)
    requires Inv(fs) && k < |fs.inodes| && Owner(fs.inodes[k]) && TopsFreed(fs, cur, k, 9)
    ensures cur.zmap[0]
  {
    var w := fs.first - 1;
    if InTops(fs, k, 9, w) {
      var i: nat :| i < 9 && InTree(fs.blocks, Val(fs, Top(k, i)), Level(Top(k, i)), w);
      SlotTreeOk(fs, Top(k, i));
      AllUsed(fs, Val(fs, Top(k, i)), Level(Top(k, i)));
    }
    assert Used(cur, w);
  }
}
