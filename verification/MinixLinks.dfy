/** Every operation on directories keeps the link counts exact. */
module MinixLinks {
  import opened Words
  import opened MinixDir
  import Bitmap

  // ---------------------------------------------------------------- counting

  lemma {:induction false} CountInUpdate(es: seq<Dentry>, i: nat, e: Dentry, k: nat)
    requires i < |es|
    ensures CountIn(es[i := e], k) == CountIn(es, k) - (if es[i].nr == k then 1 else 0) + (if e.nr == k then 1 else 0)
  {
    var n := |es| - 1;
    if i == n {
      assert es[i := e][..n] == es[..n];
    } else {
      CountInUpdate(es[..n], i, e, k);
      assert es[i := e][..n] == es[..n][i := e];
    }
  }

  lemma CountInAdd(es: seq<Dentry>, e: Dentry, k: nat)
    requires k > 0
    ensures CountIn(Add(es, e), k) == CountIn(es, k) + if e.nr == k then 1 else 0
  {
    var i := FirstFree(es);
    if i < |es| {
      CountInUpdate(es, i, e, k);
    } else {
      assert (es + [e])[..|es|] == es;
    }
  }

  lemma {:induction false} CountToUpdate(nodes: seq<Node>, d: nat, node: Node, n: nat, k: nat)
    requires d < |nodes| && n <= |nodes|
    ensures CountTo(nodes[d := node], n, k) ==
      CountTo(nodes, n, k) + if d < n then CountIn(node.entries, k) - CountIn(nodes[d].entries, k) else 0
  {
    if n > 0 {
      CountToUpdate(nodes, d, node, n - 1, k);
    }
  }

  lemma CountUpdate(nodes: seq<Node>, d: nat, node: Node, k: nat)
    requires d < |nodes|
    ensures CountAll(nodes[d := node], k) == CountAll(nodes, k) + CountIn(node.entries, k) - CountIn(nodes[d].entries, k)
  {
    CountToUpdate(nodes, d, node, |nodes|, k);
  }

  lemma {:induction false} CountInNone(es: seq<Dentry>, k: nat)
    requires forall i :: 0 <= i < |es| ==> es[i].nr != k
    ensures CountIn(es, k) == 0
  {
    if es != [] {
      CountInNone(es[..|es| - 1], k);
    }
  }

  lemma {:induction false} CountInOne(es: seq<Dentry>, i: nat, k: nat)
    requires i < |es| && forall j :: 0 <= j < |es| ==> (es[j].nr == k <==> j == i)
    ensures CountIn(es, k) == 1
  {
    var n := |es| - 1;
    if i == n {
      CountInNone(es[..n], k);
    } else {
      CountInOne(es[..n], i, k);
    }
  }

  lemma {:induction false} CountInSome(es: seq<Dentry>, i: nat, k: nat)
    requires i < |es| && es[i].nr == k
    ensures CountIn(es, k) > 0
  {
    if i < |es| - 1 {
      CountInSome(es[..|es| - 1], i, k);
    }
  }

  lemma {:induction false} CountToSome(nodes: seq<Node>, n: nat, d: nat, k: nat)
    requires d < n <= |nodes| && CountIn(nodes[d].entries, k) > 0
    ensures CountTo(nodes, n, k) > 0
  {
    if d < n - 1 {
      CountToSome(nodes, n - 1, d, k);
    }
  }

  /** An inode named somewhere is not free. */
  lemma NamedIsUsed(t: Tree, d: nat, i: nat)
    requires Inv(t) && i < |Entries(t, d)| && Entries(t, d)[i].nr != 0
    ensures t.ibits[Entries(t, d)[i].nr]
  {
    var k := Entries(t, d)[i].nr;
    CountInSome(Entries(t, d), i, k);
    CountToSome(t.nodes, |t.nodes|, d, k);
    assert LinksOk(t, k);
  }

  /** The sum when only directories a and b name k, each once. */
  lemma {:induction false} CountTwo(nodes: seq<Node>, n: nat, k: nat, a: nat, b: nat)
    requires n <= |nodes| && a != b
    requires forall x :: 0 <= x < n ==> CountIn(nodes[x].entries, k) == if x == a || x == b then 1 else 0
    ensures CountTo(nodes, n, k) == (if a < n then 1 else 0) + (if b < n then 1 else 0)
  {
    if n > 0 {
      CountTwo(nodes, n - 1, k, a, b);
    }
  }

  // ---------------------------------------------------------------- adding an entry

  /** Where the new entry goes, and that no other is touched. */
  lemma AddAt(es: seq<Dentry>, e: Dentry)
    ensures var p := FirstFree(es); var r := Add(es, e);
      p < |r| && r[p] == e && |es| <= |r| <= |es| + 1 && (p < |es| ==> es[p].nr == 0) && (|r| > |es| ==> p == |es|) &&
      forall i :: 0 <= i < |r| && i != p ==> i < |es| && r[i] == es[i]
  {
  }

  lemma AddDistinct(es: seq<Dentry>, e: Dentry)
    requires Distinct(es) && Find(es, e.name) == |es|
    ensures Distinct(Add(es, e))
  {
    AddAt(es, e);
    forall i: nat, j: nat ensures Differ(Add(es, e), i, j) {
      assert Differ(es, i, j);
    }
  }

  /** The free inode that is handed out. */
  lemma IallocIsFree(t: Tree)
    requires Inv(t) && CanAlloc(t)
    ensures ROOT < Ialloc(t) < |t.nodes| && !t.ibits[Ialloc(t)] && t.nodes[Ialloc(t)].entries == []
    ensures forall d, i :: 0 <= i < |Entries(t, d)| ==> Entries(t, d)[i].nr != Ialloc(t)
  {
    var k := Ialloc(t);
    Bitmap.FirstRunIsFirst(t.ibits, 0, 1);
    assert PlainOk(t, k);
    forall d, i | 0 <= i < |Entries(t, d)| ensures Entries(t, d)[i].nr != k {
      if Entries(t, d)[i].nr != 0 {
        NamedIsUsed(t, d, i);
      }
    }
  }

  /** The tree with a new inode k, named by a new entry of d. */
  ghost predicate Grown(t: Tree, t': Tree, d: nat, e: Dentry, node: Node) {
    Inv(t) && CanAlloc(t) && e.nr == Ialloc(t) && IsDir(t, d) && Find(Entries(t, d), e.name) == |Entries(t, d)| &&
    |t'.nodes| == |t.nodes| && t'.ibits == t.ibits[e.nr := true] && d != e.nr &&
    t'.nodes[e.nr] == node &&
    Entries(t', d) == Add(Entries(t, d), e) && t'.nodes[d].kind == t.nodes[d].kind &&
    forall x :: 0 <= x < |t.nodes| && x != d && x != e.nr ==> t'.nodes[x] == t.nodes[x]
  }

  lemma GrownCount(t: Tree, t': Tree, d: nat, e: Dentry, node: Node, m: nat)
    requires Grown(t, t', d, e, node) && m > 0
    ensures CountAll(t'.nodes, m) == CountAll(t.nodes, m) + (if m == e.nr then 1 else 0) + CountIn(node.entries, m)
  {
    IallocIsFree(t);
    var nodes1 := t.nodes[d := t'.nodes[d]];
    assert t'.nodes == nodes1[e.nr := node];
    CountUpdate(t.nodes, d, t'.nodes[d], m);
    CountUpdate(nodes1, e.nr, node, m);
    CountInAdd(Entries(t, d), e, m);
  }

  lemma GrownDirs(t: Tree, t': Tree, d: nat, e: Dentry, node: Node, x: nat)
    requires Grown(t, t', d, e, node)
    ensures IsDir(t', x) == if x == e.nr then node.kind == Dir else IsDir(t, x)
    ensures IsDir(t, x) ==> ParentOf(t', x) == ParentOf(t, x)
  {
    IallocIsFree(t);
    assert DirOk(t, d);
    AddAt(Entries(t, d), e);
  }

  lemma GrownOld(t: Tree, t': Tree, d: nat, e: Dentry, node: Node, x: nat)
    requires Grown(t, t', d, e, node) && x != e.nr
    ensures DirOk(t', x) && NamedOk(t', x) && PlainOk(t', x)
  {
    IallocIsFree(t);
    GrownDirs(t, t', d, e, node, x);
    assert DirOk(t, x) && NamedOk(t, x) && PlainOk(t, x) && DirOk(t, d) && PlainOk(t, d);
    AddAt(Entries(t, d), e);
    AddDistinct(Entries(t, d), e);
    if IsDir(t', x) {
      GrownDirs(t, t', d, e, node, ParentOf(t, x));
      if x != ROOT {
        var p := ParentOf(t, x);
        var i :| 2 <= i < |Entries(t, p)| && Entries(t, p)[i].nr == x;
        assert Entries(t', p)[i].nr == x;
      }
    }
  }

  lemma GrownChild(t: Tree, t': Tree, d: nat, e: Dentry, node: Node, x: nat, i: nat)
    requires Grown(t, t', d, e, node) && x != e.nr
    requires node.kind == Dir ==> |node.entries| > 1 && node.entries[1].nr == d
    ensures ChildOk(t', x, i)
  {
    IallocIsFree(t);
    GrownDirs(t, t', d, e, node, x);
    AddAt(Entries(t, d), e);
    assert ChildOk(t, x, i) && DirOk(t, d);
    if IsDir(t', x) && 2 <= i < |Entries(t', x)| {
      GrownDirs(t, t', d, e, node, Entries(t', x)[i].nr);
    }
  }

  // ---------------------------------------------------------------- create, mknod, mkdir

  lemma GrownLinks(t: Tree, t': Tree, d: nat, e: Dentry, node: Node, x: nat)
    requires Grown(t, t', d, e, node) && 0 < x < |t.nodes|
    requires x == e.nr ==> node.nlinks == 1 + CountIn(node.entries, x)
    requires x == d ==> t'.nodes[d].nlinks == t.nodes[d].nlinks + CountIn(node.entries, d)
    requires x != d && x != e.nr ==> CountIn(node.entries, x) == 0
    ensures LinksOk(t', x)
  {
    IallocIsFree(t);
    assert LinksOk(t, x);
    GrownCount(t, t', d, e, node, x);
  }

  lemma GrownRange(t: Tree, t': Tree, d: nat, e: Dentry, node: Node)
    requires Grown(t, t', d, e, node) && forall i :: 0 <= i < |node.entries| ==> node.entries[i].nr < |t.nodes|
    ensures forall x, i :: 0 <= i < |Entries(t', x)| ==> Entries(t', x)[i].nr < |t'.nodes|
  {
    AddAt(Entries(t, d), e);
    forall x: nat, i | 0 <= i < |Entries(t', x)| ensures Entries(t', x)[i].nr < |t'.nodes| {
      assert x == e.nr || Entries(t', x)[i] == e || Entries(t', x)[i] == Entries(t, x)[i];
    }
  }

  /** minix_open with O_CREAT and minix_mknod keep the links exact exactly when the new inode
      is not a directory: minix_mknod does not look at the type it is given, and a directory
      made by it has neither "." nor "..". */
  lemma CreateKeeps(t: Tree, d: nat, name: string, kind: Kind)
    requires Inv(t) && IsDir(t, d) && CanAlloc(t) && Create(t, d, name, kind).Ok?
    ensures Inv(Create(t, d, name, kind).t) <==> kind != Dir
  {
    var t', e, node := Create(t, d, name, kind).t, Dentry(Ialloc(t), name), Node(kind, 1, []);
    IallocIsFree(t);
    assert Grown(t, t', d, e, node);
    if kind == Dir {
      GrownDirs(t, t', d, e, node, e.nr);
      assert !DirOk(t', e.nr);
    } else {
      GrownRange(t, t', d, e, node);
      forall x: nat ensures DirOk(t', x) && NamedOk(t', x) && LinksOk(t', x) && PlainOk(t', x) {
        if x != e.nr { GrownOld(t, t', d, e, node, x); }
        if 0 < x < |t.nodes| { GrownLinks(t, t', d, e, node, x); }
      }
      forall x: nat, i: nat ensures ChildOk(t', x, i) {
        if x != e.nr { GrownChild(t, t', d, e, node, x, i); }
      }
      GrownDirs(t, t', d, e, node, ROOT);
      assert DirOk(t, ROOT);
    }
  }

  /** A file system with nothing but its root directory, and a free inode. */
  function RootOnly(): Tree {
    Tree([Node(File, 0, []), Node(Dir, 2, [Dentry(1, "."), Dentry(1, "..")]), Node(File, 0, [])], [true, true, false])
  }

  lemma RootOnlyOk()
    ensures Inv(RootOnly()) && CanAlloc(RootOnly()) && IsDir(RootOnly(), ROOT)
  {
    var t := RootOnly();
    var es := t.nodes[1].entries;
    Bitmap.FirstRunIsFirst(t.ibits, 0, 1);
    assert Bitmap.ClearRun(t.ibits, 2, 1);
    forall k: nat | 0 < k < 3 ensures CountAll(t.nodes, k) == if k == 1 then 2 else 0 {
      assert es[..1] == [es[0]] && es[..1][..0] == [];
      assert CountIn(es[..1], k) == CountIn([], k) + if k == 1 then 1 else 0;
      assert CountIn(es, k) == CountIn(es[..1], k) + if k == 1 then 1 else 0;
      assert CountTo(t.nodes, 1, k) == 0 && CountTo(t.nodes, 2, k) == CountIn(es, k);
    }
    forall k: nat ensures DirOk(t, k) && NamedOk(t, k) && LinksOk(t, k) && PlainOk(t, k) {
    }
  }

  /** There mknod with the type of a directory breaks the invariant. */
  lemma MknodBreaks()
    ensures var r := Create(RootOnly(), ROOT, "d", Dir); r.Ok? && !Inv(r.t)
  {
    RootOnlyOk();
    CreateKeeps(RootOnly(), ROOT, "d", Dir);
  }

  lemma NewDirOk(t: Tree, t': Tree, d: nat, e: Dentry)
    requires Grown(t, t', d, e, Node(Dir, 2, [Dentry(e.nr, "."), Dentry(d, "..")]))
    ensures DirOk(t', e.nr) && NamedOk(t', e.nr) && PlainOk(t', e.nr)
    ensures forall i: nat :: ChildOk(t', e.nr, i)
  {
    var node := Node(Dir, 2, [Dentry(e.nr, "."), Dentry(d, "..")]);
    IallocIsFree(t);
    GrownDirs(t, t', d, e, node, d);
    GrownDirs(t, t', d, e, node, e.nr);
    assert DirOk(t, d);
    AddAt(Entries(t, d), e);
    forall i: nat, j: nat ensures Differ(node.entries, i, j) {
      if i < j < 2 {
        assert node.entries[i].name == "." && node.entries[j].name == "..";
        assert |"."| != |".."|;
      }
    }
  }

  /** A link count of 0 is wrong for an inode that an entry names. */
  lemma NamedWithoutLinks(t: Tree, d: nat, i: nat, k: nat)
    requires |t.nodes| <= |t.ibits| && d < |t.nodes| && i < |Entries(t, d)| && Entries(t, d)[i].nr == k
    requires 0 < k < |t.nodes| && t.nodes[k].nlinks == 0
    ensures !LinksOk(t, k) && !Inv(t)
  {
    CountInSome(Entries(t, d), i, k);
    CountToSome(t.nodes, |t.nodes|, d, k);
  }

  /** mkdir keeps the links exact exactly when the count of the parent, a byte, does not wrap. */
  lemma MkdirKeeps(t: Tree, d: nat, name: string)
    requires Inv(t) && IsDir(t, d) && CanAlloc(t) && Mkdir(t, d, name).Ok?
    ensures Inv(Mkdir(t, d, name).t) <==> t.nodes[d].nlinks < 255
  {
    if t.nodes[d].nlinks < 255 {
      MkdirFits(t, d, name);
    } else {
      hide Inv, LinksOk;
      AddAt(Entries(t, d), Dentry(Ialloc(t), name));
      DotIs(t, d);
      IallocIsFree(t);
      NamedWithoutLinks(Mkdir(t, d, name).t, d, 0, d);
    }
  }

  lemma DotIs(t: Tree, d: nat)
    requires Inv(t) && IsDir(t, d)
    ensures |Entries(t, d)| > 0 && Entries(t, d)[0].nr == d && |t.nodes| <= |t.ibits|
  {
    assert DirOk(t, d);
  }

  lemma MkdirFits(t: Tree, d: nat, name: string)
    requires Inv(t) && IsDir(t, d) && CanAlloc(t) && Mkdir(t, d, name).Ok? && t.nodes[d].nlinks < 255
    ensures Inv(Mkdir(t, d, name).t)
  {
    hide NamedOk, PlainOk, ChildOk;
    var t', e := Mkdir(t, d, name).t, Dentry(Ialloc(t), name);
    var node := Node(Dir, 2, [Dentry(e.nr, "."), Dentry(d, "..")]);
    IallocIsFree(t);
    assert Grown(t, t', d, e, node);
    assert node.entries[..1] == [Dentry(e.nr, ".")];
    NewDirOk(t, t', d, e);
    GrownRange(t, t', d, e, node);
    forall x: nat ensures DirOk(t', x) && NamedOk(t', x) && LinksOk(t', x) && PlainOk(t', x) {
      if x != e.nr { GrownOld(t, t', d, e, node, x); }
      if 0 < x < |t.nodes| {
        TwoEntries(node.entries, x);
        GrownLinks(t, t', d, e, node, x);
      }
    }
    forall x: nat, i: nat ensures ChildOk(t', x, i) {
      if x != e.nr { GrownChild(t, t', d, e, node, x, i); }
    }
    GrownDirs(t, t', d, e, node, ROOT);
    assert DirOk(t, ROOT);
  }

  lemma TwoEntries(es: seq<Dentry>, k: nat)
    requires |es| == 2
    ensures CountIn(es, k) == (if es[0].nr == k then 1 else 0) + (if es[1].nr == k then 1 else 0)
  {
    var one := es[..1];
    assert one[..0] == [] && one[0] == es[0];
    assert CountIn(one, k) == if es[0].nr == k then 1 else 0;
  }

  // ---------------------------------------------------------------- link, unlink

  /** The trees differ in one entry of d, at a place after the first two, that names a file in
      one of them and nothing in the other, and in the link count and bit of that file. */
  ghost predicate Relinked(t: Tree, t': Tree, d: nat, k: nat) {
    Inv(t) && |t'.nodes| == |t.nodes| && |t'.ibits| == |t.ibits| && IsDir(t, d) && 0 < k < |t.nodes| && t.nodes[k].kind != Dir &&
    t'.nodes[d] == t.nodes[d].(entries := t'.nodes[d].entries) && t'.nodes[k] == t.nodes[k].(nlinks := t'.nodes[k].nlinks) &&
    (forall x :: 0 <= x < |t.nodes| && x != d && x != k ==> t'.nodes[x] == t.nodes[x]) &&
    (forall x :: 0 <= x < |t.ibits| && x != k ==> t'.ibits[x] == t.ibits[x]) &&
    Distinct(Entries(t', d)) && |Entries(t', d)| >= |Entries(t, d)| &&
    (forall i :: 0 <= i < |Entries(t', d)| && Entries(t', d)[i].nr != k && Entries(t', d)[i].nr != 0 ==>
      i < |Entries(t, d)| && Entries(t', d)[i] == Entries(t, d)[i]) &&
    (forall i :: 0 <= i < |Entries(t, d)| && Entries(t, d)[i].nr != k && Entries(t, d)[i].nr != 0 ==>
      Entries(t', d)[i] == Entries(t, d)[i])
  }

  lemma RelinkedDirs(t: Tree, t': Tree, d: nat, k: nat, x: nat)
    requires Relinked(t, t', d, k)
    ensures IsDir(t', x) == IsDir(t, x)
    ensures IsDir(t, x) ==> ParentOf(t', x) == ParentOf(t, x)
  {
    assert DirOk(t, d);
    assert IsDir(t, ParentOf(t, d));
  }

  lemma RelinkedOk(t: Tree, t': Tree, d: nat, k: nat, x: nat)
    requires Relinked(t, t', d, k)
    ensures DirOk(t', x) && NamedOk(t', x) && PlainOk(t', x)
  {
    RelinkedDirs(t, t', d, k, x);
    assert DirOk(t, x) && NamedOk(t, x) && PlainOk(t, x) && DirOk(t, d);
    if IsDir(t, x) {
      RelinkedDirs(t, t', d, k, ParentOf(t, x));
      if x != ROOT {
        var p := ParentOf(t, x);
        var i :| 2 <= i < |Entries(t, p)| && Entries(t, p)[i].nr == x;
        assert Entries(t', p)[i].nr == x;
      }
    }
  }

  lemma RelinkedChild(t: Tree, t': Tree, d: nat, k: nat, x: nat, i: nat)
    requires Relinked(t, t', d, k)
    ensures ChildOk(t', x, i)
  {
    RelinkedDirs(t, t', d, k, x);
    assert ChildOk(t, x, i);
    if IsDir(t', x) && 2 <= i < |Entries(t', x)| {
      RelinkedDirs(t, t', d, k, Entries(t', x)[i].nr);
    }
  }

  /** What is left to show: the counts. */
  lemma RelinkedKeeps(t: Tree, t': Tree, d: nat, k: nat)
    requires Relinked(t, t', d, k) && forall m :: LinksOk(t', m)
    ensures Inv(t')
  {
    forall x: nat ensures DirOk(t', x) && NamedOk(t', x) && PlainOk(t', x) {
      RelinkedOk(t, t', d, k, x);
    }
    forall x: nat, i: nat ensures ChildOk(t', x, i) {
      RelinkedChild(t, t', d, k, x, i);
    }
    RelinkedDirs(t, t', d, k, ROOT);
    forall x: nat, i | 0 <= i < |Entries(t', x)| ensures Entries(t', x)[i].nr < |t'.nodes| {
      assert (i < |Entries(t, x)| && Entries(t', x)[i] == Entries(t, x)[i]) || Entries(t', x)[i].nr == k || Entries(t', x)[i].nr == 0;
    }
  }

  lemma LinkCounts(t: Tree, nd: nat, e: Dentry, m: nat)
    requires Inv(t) && IsDir(t, nd) && 0 < e.nr < |t.nodes| && t.ibits[e.nr] && t.nodes[e.nr].kind != Dir && t.nodes[e.nr].nlinks < 255
    ensures var t1 := WithEntries(t, nd, Add(Entries(t, nd), e));
      LinksOk(t1.(nodes := t1.nodes[e.nr := t1.nodes[e.nr].(nlinks := t1.nodes[e.nr].nlinks + 1)]), m)
  {
    assert LinksOk(t, m) && LinksOk(t, e.nr);
    if 0 < m < |t.nodes| {
      var t1 := WithEntries(t, nd, Add(Entries(t, nd), e));
      CountUpdate(t.nodes, nd, t1.nodes[nd], m);
      CountUpdate(t1.nodes, e.nr, t1.nodes[e.nr].(nlinks := t1.nodes[e.nr].nlinks + 1), m);
      CountInAdd(Entries(t, nd), e, m);
    }
  }

  /** link keeps the links exact exactly when the count of the file, a byte, does not wrap. */
  lemma LinkKeeps(t: Tree, od: nat, oldname: string, nd: nat, newname: string)
    requires Inv(t) && IsDir(t, od) && IsDir(t, nd) && Link(t, od, oldname, nd, newname).Ok?
    ensures Inv(Link(t, od, oldname, nd, newname).t) <==> t.nodes[Entries(t, od)[Find(Entries(t, od), oldname)].nr].nlinks < 255
  {
    var k := Entries(t, od)[Find(Entries(t, od), oldname)].nr;
    if t.nodes[k].nlinks < 255 {
      LinkFits(t, od, oldname, nd, newname);
    } else {
      AddAt(Entries(t, nd), Dentry(k, newname));
      NamedWithoutLinks(Link(t, od, oldname, nd, newname).t, nd, FirstFree(Entries(t, nd)), k);
    }
  }

  lemma LinkFits(t: Tree, od: nat, oldname: string, nd: nat, newname: string)
    requires Inv(t) && IsDir(t, od) && IsDir(t, nd) && Link(t, od, oldname, nd, newname).Ok?
    requires t.nodes[Entries(t, od)[Find(Entries(t, od), oldname)].nr].nlinks < 255
    ensures Inv(Link(t, od, oldname, nd, newname).t)
  {
    hide LinksOk, ChildOk, NamedOk, PlainOk, CountAll;
    var t', i := Link(t, od, oldname, nd, newname).t, Find(Entries(t, od), oldname);
    var k := Entries(t, od)[i].nr;
    var e := Dentry(k, newname);
    NamedIsUsed(t, od, i);
    AddAt(Entries(t, nd), e);
    assert DirOk(t, nd);
    AddDistinct(Entries(t, nd), e);
    assert Relinked(t, t', nd, k);
    forall m: nat ensures LinksOk(t', m) {
      LinkCounts(t, nd, e, m);
    }
    RelinkedKeeps(t, t', nd, k);
  }

  /** A name of three letters, another one for each number. */
  function NameOf(n: nat): string
    requires n < 256
  {
    ['n', ('a' as int + n / 16) as char, ('a' as int + n % 16) as char]
  }

  function Number(name: string): int
    requires |name| == 3
  {
    (name[1] as int - 'a' as int) * 16 + (name[2] as int - 'a' as int)
  }

  /** Inode 2 has the names below n. */
  ghost predicate NamesIn(es: seq<Dentry>, n: nat) {
    (forall i :: 0 <= i < |es| && es[i].nr != 0 && |es[i].name| > 2 ==>
      es[i].nr == 2 && |es[i].name| == 3 && Number(es[i].name) < n) &&
    exists i :: 0 <= i < |es| && es[i] == Dentry(2, NameOf(0))
  }

  /** A root directory in which inode 2 has n names. */
  ghost predicate Names(t: Tree, n: nat) {
    Inv(t) && IsDir(t, ROOT) && 2 < |t.nodes| && t.nodes[2].kind == File && t.nodes[2].nlinks == n && NamesIn(Entries(t, ROOT), n)
  }

  lemma FirstName() returns (t: Tree)
    ensures Names(t, 1)
  {
    RootOnlyOk();
    Bitmap.FirstRunIsFirst(RootOnly().ibits, 0, 1);
    assert Bitmap.ClearRun(RootOnly().ibits, 2, 1);
    t := Create(RootOnly(), ROOT, NameOf(0), File).t;
    CreateKeeps(RootOnly(), ROOT, NameOf(0), File);
    AddAt(Entries(RootOnly(), ROOT), Dentry(2, NameOf(0)));
    assert Entries(t, ROOT)[FirstFree(Entries(RootOnly(), ROOT))] == Dentry(2, NameOf(0));
  }

  /** One more link to the file. */
  function MoreLinks(t: Tree, n: nat): Result
    requires ROOT < |t.nodes| && n < 256
  {
    Link(t, ROOT, NameOf(0), ROOT, NameOf(n))
  }

  lemma NameFound(t: Tree, n: nat)
    requires Names(t, n) && n < 256
    ensures MoreLinks(t, n).Ok? && Entries(t, ROOT)[Find(Entries(t, ROOT), NameOf(0))].nr == 2
  {
    hide Inv;
    var es := Entries(t, ROOT);
    var i :| 0 <= i < |es| && es[i] == Dentry(2, NameOf(0));
    assert Find(es, NameOf(0)) <= i;
    assert es[Find(es, NameOf(0))].name == NameOf(0);
    assert Find(es, NameOf(n)) == |es|;
  }

  lemma NumberIs(n: nat)
    requires n < 256
    ensures |NameOf(n)| == 3 && Number(NameOf(n)) == n
  {
  }

  lemma NamesMore(es: seq<Dentry>, n: nat)
    requires NamesIn(es, n) && n < 256
    ensures NamesIn(Add(es, Dentry(2, NameOf(n))), n + 1)
  {
    hide FirstFree, Add, NameOf, Number;
    var e := Dentry(2, NameOf(n));
    NumberIs(n);
    AddAt(es, e);
    var i :| 0 <= i < |es| && es[i] == Dentry(2, NameOf(0));
    assert Add(es, e)[i] == es[i];
  }

  lemma NextName(t: Tree, n: nat)
    requires Names(t, n) && n < 255
    ensures Names(MoreLinks(t, n).t, n + 1)
  {
    hide Inv, NamesIn, Find, Add, NameOf;
    NameFound(t, n);
    NamesMore(Entries(t, ROOT), n);
    LinkKeeps(t, ROOT, NameOf(0), ROOT, NameOf(n));
  }

  lemma {:induction false} ManyNames(n: nat) returns (t: Tree)
    requires 1 <= n <= 255
    ensures Names(t, n)
  {
    if n == 1 {
      t := FirstName();
    } else {
      var u := ManyNames(n - 1);
      NextName(u, n - 1);
      t := MoreLinks(u, n - 1).t;
    }
  }

  /** The 256th name of a file makes its link count 0. */
  lemma LinksWrap() returns (t: Tree)
    ensures Names(t, 255) && MoreLinks(t, 255).Ok? && !Inv(MoreLinks(t, 255).t) && MoreLinks(t, 255).t.nodes[2].nlinks == 0
  {
    t := ManyNames(255);
    NameFound(t, 255);
    LinkKeeps(t, ROOT, NameOf(0), ROOT, NameOf(255));
  }

  lemma UnlinkCounts(t: Tree, t': Tree, d: nat, i: nat, k: nat, m: nat)
    requires Inv(t) && IsDir(t, d) && i < |Entries(t, d)| && k == Entries(t, d)[i].nr != 0 && t.nodes[k].kind != Dir
    requires var t1 := WithEntries(t, d, Entries(t, d)[i := Entries(t, d)[i].(nr := 0)]);
      t.nodes[k].nlinks > 0 && t'.nodes == t1.nodes[k := t1.nodes[k].(nlinks := t.nodes[k].nlinks - 1)] &&
      t'.ibits == if t.nodes[k].nlinks == 1 then t.ibits[k := false] else t.ibits
    ensures LinksOk(t', m)
  {
    assert LinksOk(t, m) && LinksOk(t, k);
    if 0 < m < |t.nodes| {
      var t1 := WithEntries(t, d, Entries(t, d)[i := Entries(t, d)[i].(nr := 0)]);
      CountUpdate(t.nodes, d, t1.nodes[d], m);
      CountUpdate(t1.nodes, k, t'.nodes[k], m);
      CountInUpdate(Entries(t, d), i, Entries(t, d)[i].(nr := 0), m);
    }
  }

  lemma ClearedDistinct(es: seq<Dentry>, i: nat)
    requires Distinct(es) && i < |es|
    ensures Distinct(es[i := es[i].(nr := 0)])
  {
    var es' := es[i := es[i].(nr := 0)];
    forall a: nat, b: nat ensures Differ(es', a, b) {
      assert Differ(es, a, b);
    }
  }

  lemma UnlinkRelinks(t: Tree, t': Tree, d: nat, i: nat, k: nat)
    requires Inv(t) && IsDir(t, d) && i < |Entries(t, d)| && k == Entries(t, d)[i].nr != 0 && t.nodes[k].kind != Dir
    requires var t1 := WithEntries(t, d, Entries(t, d)[i := Entries(t, d)[i].(nr := 0)]);
      |t'.nodes| == |t.nodes| && t'.nodes == t1.nodes[k := t1.nodes[k].(nlinks := t'.nodes[k].nlinks)] && (t'.ibits == t.ibits || t'.ibits == t.ibits[k := false])
    ensures Relinked(t, t', d, k)
  {
    hide LinksOk, ChildOk, NamedOk, PlainOk, CountAll;
    assert DirOk(t, d) && DirOk(t, ParentOf(t, d));
    ClearedDistinct(Entries(t, d), i);
  }

  /** minix_unlink; the count it decrements is never 0 before. */
  lemma UnlinkKeeps(t: Tree, d: nat, name: string)
    requires Inv(t) && IsDir(t, d) && Unlink(t, d, name).Ok?
    ensures Inv(Unlink(t, d, name).t)
    ensures t.nodes[Entries(t, d)[Find(Entries(t, d), name)].nr].nlinks > 0
  {
    hide ChildOk, NamedOk, PlainOk, DirOk, CountAll, IsDir, Relinked;
    var t', i := Unlink(t, d, name).t, Find(Entries(t, d), name);
    var k := Entries(t, d)[i].nr;
    NamedIsUsed(t, d, i);
    assert LinksOk(t, k);
    UnlinkRelinks(t, t', d, i, k);
    forall m: nat ensures LinksOk(t', m) {
      UnlinkCounts(t, t', d, i, k, m);
    }
    RelinkedKeeps(t, t', d, k);
  }
}
