/** Directories and link counts of the Minix file system: find_entry, add_entry, and the
    operations that make, name and remove inodes. */
module MinixDir {
  import opened Words
  import Bitmap

  datatype Kind = File | Dir | Special

  /** minix_dentry_t; nr 0 is a free entry. */
  datatype Dentry = Dentry(nr: nat, name: string)

  /** An inode; `entries` is what the zones of a directory hold. */
  datatype Node = Node(kind: Kind, nlinks: u8, entries: seq<Dentry>)

  /** The inodes by number, and the inode map; number 0 is no inode, number 1 the root. */
  datatype Tree = Tree(nodes: seq<Node>, ibits: seq<bool>)

  const ROOT := 1

  // ---------------------------------------------------------------- counting

  function CountIn(es: seq<Dentry>, k: nat): nat {
    if es == [] then 0 else CountIn(es[..|es| - 1], k) + if es[|es| - 1].nr == k then 1 else 0
  }

  /** How many directory entries among the first n inodes name inode k. */
  function CountTo(nodes: seq<Node>, n: nat, k: nat): nat
    requires n <= |nodes|
  {
    if n == 0 then 0 else CountTo(nodes, n - 1, k) + CountIn(nodes[n - 1].entries, k)
  }

  function CountAll(nodes: seq<Node>, k: nat): nat {
    CountTo(nodes, |nodes|, k)
  }

  // ---------------------------------------------------------------- the invariant

  predicate IsDir(t: Tree, k: nat) {
    0 < k < |t.nodes| && k < |t.ibits| && t.ibits[k] && t.nodes[k].kind == Dir
  }

  function Entries(t: Tree, k: nat): seq<Dentry> {
    if k < |t.nodes| then t.nodes[k].entries else []
  }

  /** What the entry ".." says. */
  function ParentOf(t: Tree, k: nat): nat {
    if |Entries(t, k)| > 1 then Entries(t, k)[1].nr else 0
  }

  predicate Differ(es: seq<Dentry>, i: nat, j: nat) {
    i < j < |es| && es[i].nr != 0 && es[j].nr != 0 ==> es[i].name != es[j].name
  }

  ghost predicate Distinct(es: seq<Dentry>) {
    forall i: nat, j: nat :: Differ(es, i, j)
  }

  ghost predicate DirOk(t: Tree, k: nat) {
    IsDir(t, k) ==>
      |Entries(t, k)| >= 2 && Entries(t, k)[0] == Dentry(k, ".") && Entries(t, k)[1].name == ".." &&
      IsDir(t, ParentOf(t, k)) && Distinct(Entries(t, k))
  }

  /** Entry i of directory d, after the first two, if it names a directory: that one says so
      too, and d has no other name for it. */
  ghost predicate ChildOk(t: Tree, d: nat, i: nat) {
    IsDir(t, d) && 2 <= i < |Entries(t, d)| && IsDir(t, Entries(t, d)[i].nr) ==>
      ParentOf(t, Entries(t, d)[i].nr) == d && Entries(t, d)[i].nr != ROOT &&
      forall j :: 2 <= j < |Entries(t, d)| && Entries(t, d)[j].nr == Entries(t, d)[i].nr ==> j == i
  }

  ghost predicate HasName(t: Tree, d: nat, k: nat) {
    exists i :: 2 <= i < |Entries(t, d)| && Entries(t, d)[i].nr == k
  }

  /** Every directory but the root has a name in its parent, which is another one. */
  ghost predicate NamedOk(t: Tree, k: nat) {
    IsDir(t, k) && k != ROOT ==> ParentOf(t, k) != k && HasName(t, ParentOf(t, k), k)
  }

  /** The link count is the number of entries that name the inode, and the bit of an inode is
      clear exactly when no entry names it. */
  ghost predicate LinksOk(t: Tree, k: nat)
    requires |t.nodes| <= |t.ibits|
  {
    0 < k < |t.nodes| ==> t.nodes[k].nlinks == CountAll(t.nodes, k) && (t.ibits[k] <==> CountAll(t.nodes, k) > 0)
  }

  ghost predicate PlainOk(t: Tree, k: nat) {
    k < |t.nodes| && !IsDir(t, k) ==> t.nodes[k].entries == []
  }

  ghost predicate Inv(t: Tree) {
    ROOT < |t.nodes| <= |t.ibits| && t.ibits[0] && IsDir(t, ROOT) && ParentOf(t, ROOT) == ROOT &&
    (forall k :: DirOk(t, k) && NamedOk(t, k) && LinksOk(t, k) && PlainOk(t, k)) &&
    (forall d, i :: ChildOk(t, d, i)) &&
    (forall d, i :: 0 <= i < |Entries(t, d)| ==> Entries(t, d)[i].nr < |t.nodes|)
  }

  // ---------------------------------------------------------------- find_entry, add_entry

  /** The first live entry with that name; the number of entries if there is none. */
  function Find(es: seq<Dentry>, name: string): (r: nat)
    ensures r <= |es|
    ensures r < |es| ==> es[r].nr != 0 && es[r].name == name
    ensures forall i :: 0 <= i < r ==> es[i].nr == 0 || es[i].name != name
  {
    if es == [] then 0
    else if es[0].nr != 0 && es[0].name == name then 0
    else 1 + Find(es[1..], name)
  }

  function FirstFree(es: seq<Dentry>): (r: nat)
    ensures r <= |es|
    ensures r < |es| ==> es[r].nr == 0
    ensures forall i :: 0 <= i < r ==> es[i].nr != 0
  {
    if es == [] || es[0].nr == 0 then 0 else 1 + FirstFree(es[1..])
  }

  /** The entry goes into the first free place, or at the end. */
  function Add(es: seq<Dentry>, e: Dentry): seq<Dentry> {
    var i := FirstFree(es);
    if i < |es| then es[i := e] else es + [e]
  }

  // ---------------------------------------------------------------- the operations

  datatype Error = ENOENT | EEXIST | EPERM | ENOTDIR | ENOTEMPTY
  datatype Result = Ok(t: Tree) | Fail(error: Error)

  /** minix_ialloc: the first clear bit. */
  function Ialloc(t: Tree): nat {
    Bitmap.FirstRun(t.ibits, 0, 1)
  }

  /** The length of the inode map is given in bits where bytes are meant.  The search stays in
      the block, and finds the inode it should, exactly if the block has a clear bit. */
  lemma IallocInBlock(t: Tree, beyond: seq<bool>)
    ensures Bitmap.FirstRun(t.ibits + beyond, 0, 1) < |t.ibits| <==> false in t.ibits
    ensures false in t.ibits ==> Bitmap.FirstRun(t.ibits + beyond, 0, 1) == Ialloc(t)
  {
    Bitmap.LongMap(t.ibits, beyond);
  }

  predicate CanAlloc(t: Tree) {
    Ialloc(t) < |t.nodes| && |t.nodes| <= |t.ibits|
  }

  function WithEntries(t: Tree, d: nat, es: seq<Dentry>): Tree
    requires d < |t.nodes|
  {
    t.(nodes := t.nodes[d := t.nodes[d].(entries := es)])
  }

  /** A name that is there already needs no inode. */
  predicate Room(t: Tree, d: nat, name: string) {
    Find(Entries(t, d), name) == |Entries(t, d)| ==> CanAlloc(t)
  }

  /** minix_open with O_CREAT, and minix_mknod: a new inode with one link. */
  function Create(t: Tree, d: nat, name: string, kind: Kind): Result
    requires d < |t.nodes| && Room(t, d, name)
  {
    if Find(Entries(t, d), name) < |Entries(t, d)| then Fail(EEXIST)
    else
      var k := Ialloc(t);
      var t1 := WithEntries(t, d, Add(Entries(t, d), Dentry(k, name)));
      Ok(Tree(t1.nodes[k := Node(kind, 1, [])], t.ibits[k := true]))
  }

  /** minix_mkdir. */
  function Mkdir(t: Tree, d: nat, name: string): Result
    requires d < |t.nodes| && Room(t, d, name)
  {
    if Find(Entries(t, d), name) < |Entries(t, d)| then Fail(EEXIST)
    else
      var k := Ialloc(t);
      var t1 := WithEntries(t, d, Add(Entries(t, d), Dentry(k, name)));
      var t2 := t1.(nodes := t1.nodes[k := Node(Dir, 2, [Dentry(k, "."), Dentry(d, "..")])]);
      Ok(Tree(t2.nodes[d := t2.nodes[d].(nlinks := (t2.nodes[d].nlinks + 1) % 256)], t.ibits[k := true]))
  }

  function CountLive(es: seq<Dentry>): nat {
    if es == [] then 0 else CountLive(es[..|es| - 1]) + if es[|es| - 1].nr != 0 then 1 else 0
  }

  /** is_empty. */
  predicate IsEmpty(es: seq<Dentry>) {
    |es| >= 2 && CountLive(es) == 2
  }

  /** minix_rmdir; `busy` tells that the directory is in use elsewhere. */
  function Rmdir(t: Tree, d: nat, name: string, busy: bool): Result
    requires d < |t.nodes|
  {
    var i := Find(Entries(t, d), name);
    if i == |Entries(t, d)| then Fail(ENOENT)
    else
      var k := Entries(t, d)[i].nr;
      if k == d then Fail(EPERM)
      else if k >= |t.nodes| || k >= |t.ibits| || t.nodes[k].kind != Dir then Fail(ENOTDIR)
      else if busy then Fail(EPERM)
      else if !IsEmpty(Entries(t, k)) then Fail(ENOTEMPTY)
      else
        var nodes1 := t.nodes[k := t.nodes[k].(nlinks := 0, entries := [])];
        var nodes2 := nodes1[d := nodes1[d].(nlinks := (nodes1[d].nlinks - 1) % 256,
                                             entries := nodes1[d].entries[i := nodes1[d].entries[i].(nr := 0)])];
        Ok(Tree(nodes2, t.ibits[k := false]))
  }

  /** minix_link. */
  function Link(t: Tree, od: nat, oldname: string, nd: nat, newname: string): Result
    requires od < |t.nodes| && nd < |t.nodes|
  {
    var i := Find(Entries(t, od), oldname);
    if i == |Entries(t, od)| then Fail(ENOENT)
    else
      var k := Entries(t, od)[i].nr;
      if k >= |t.nodes| || t.nodes[k].kind == Dir || t.nodes[nd].kind != Dir then Fail(EPERM)
      else if Find(Entries(t, nd), newname) < |Entries(t, nd)| then Fail(EEXIST)
      else
        var t1 := WithEntries(t, nd, Add(Entries(t, nd), Dentry(k, newname)));
        Ok(t1.(nodes := t1.nodes[k := t1.nodes[k].(nlinks := (t1.nodes[k].nlinks + 1) % 256)]))
  }

  /** minix_unlink. */
  function Unlink(t: Tree, d: nat, name: string): Result
    requires d < |t.nodes|
  {
    var i := Find(Entries(t, d), name);
    if i == |Entries(t, d)| then Fail(ENOENT)
    else
      var k := Entries(t, d)[i].nr;
      if k >= |t.nodes| || k >= |t.ibits| || t.nodes[k].kind == Dir then Fail(EPERM)
      else
        var t1 := WithEntries(t, d, Entries(t, d)[i := Entries(t, d)[i].(nr := 0)]);
        var left := (t1.nodes[k].nlinks - 1) % 256;
        var t2 := t1.(nodes := t1.nodes[k := t1.nodes[k].(nlinks := left)]);
        Ok(if left == 0 then t2.(ibits := t2.ibits[k := false]) else t2)
  }
}
