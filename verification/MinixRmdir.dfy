/** minix_rmdir: why its two assertions never fire; and runs of all operations. */
module MinixRmdir {
  import opened Words
  import opened MinixDir
  import opened MinixLinks
  import Bitmap

  // ---------------------------------------------------------------- an empty directory

  lemma {:induction false} OnlyTwoLive(es: seq<Dentry>)
    requires |es| >= 2 && es[0].nr != 0 && es[1].nr != 0
    ensures CountLive(es) >= 2
    ensures CountLive(es) == 2 <==> forall i :: 2 <= i < |es| ==> es[i].nr == 0
    decreases |es|
  {
    var init := es[..|es| - 1];
    if |es| == 2 {
      assert init[..0] == [] && init[0] == es[0];
      assert CountLive(init) == 1;
    } else {
      OnlyTwoLive(init);
      assert forall i :: 0 <= i < |es| - 1 ==> init[i] == es[i];
    }
  }

  /** A directory k named by entry i of d that has no live entry but the first two. */
  ghost predicate Removable(t: Tree, d: nat, i: nat, k: nat) {
    Inv(t) && IsDir(t, d) && IsDir(t, k) && k != d && i < |Entries(t, d)| && Entries(t, d)[i].nr == k &&
    IsEmpty(Entries(t, k))
  }

  /** No directory says that it lies in k, and the name is not "..". */
  lemma NothingInside(t: Tree, d: nat, i: nat, k: nat)
    requires Removable(t, d, i, k)
    ensures forall j :: 2 <= j < |Entries(t, k)| ==> Entries(t, k)[j].nr == 0
    ensures forall x :: IsDir(t, x) && x != ROOT ==> ParentOf(t, x) != k
    ensures i >= 2 && k != ROOT && ParentOf(t, k) == d
  {
    assert DirOk(t, k) && DirOk(t, d) && DirOk(t, ROOT);
    OnlyTwoLive(Entries(t, k));
    forall x | IsDir(t, x) && x != ROOT ensures ParentOf(t, x) != k {
      assert NamedOk(t, x);
    }
    assert ChildOk(t, d, i);
  }

  /** How often each directory names k: itself once, d once, no other. */
  lemma NamedBy(t: Tree, d: nat, i: nat, k: nat, x: nat)
    requires Removable(t, d, i, k) && x < |t.nodes|
    ensures CountIn(t.nodes[x].entries, k) == if x == k || x == d then 1 else 0
  {
    NothingInside(t, d, i, k);
    var es := Entries(t, x);
    assert DirOk(t, x) && PlainOk(t, x) && ChildOk(t, d, i) && DirOk(t, ROOT);
    assert IsDir(t, x) && x != ROOT ==> ParentOf(t, x) != k;
    if x == k {
      CountInOne(es, 0, k);
    } else if x == d {
      CountInOne(es, i, k);
    } else {
      forall j | 0 <= j < |es| ensures es[j].nr != k {
        assert ChildOk(t, x, j);
      }
      CountInNone(es, k);
    }
  }

  lemma EmptyCounts(t: Tree, d: nat, i: nat, k: nat)
    requires Removable(t, d, i, k)
    ensures CountAll(t.nodes, k) == 2 && t.nodes[k].nlinks == 2
  {
    forall x | 0 <= x < |t.nodes| ensures CountIn(t.nodes[x].entries, k) == if x == k || x == d then 1 else 0 {
      NamedBy(t, d, i, k, x);
    }
    CountTwo(t.nodes, |t.nodes|, k, k, d);
    assert LinksOk(t, k);
  }

  /** What the entries of k itself name. */
  lemma OwnEntries(t: Tree, d: nat, i: nat, k: nat, m: nat)
    requires Removable(t, d, i, k) && m > 0
    ensures CountIn(Entries(t, k), m) == (if m == k then 1 else 0) + if m == d then 1 else 0
  {
    NothingInside(t, d, i, k);
    var es := Entries(t, k);
    assert DirOk(t, k);
    if m == k {
      CountInOne(es, 0, m);
    } else if m == d {
      CountInOne(es, 1, m);
    } else {
      CountInNone(es, m);
    }
  }

  // ---------------------------------------------------------------- minix_rmdir

  function Removed(t: Tree, d: nat, i: nat, k: nat): Tree
    requires d < |t.nodes| && k < |t.nodes| && k < |t.ibits| && i < |t.nodes[d].entries| && k != d
  {
    var nodes1 := t.nodes[k := t.nodes[k].(nlinks := 0, entries := [])];
    Tree(nodes1[d := nodes1[d].(nlinks := (nodes1[d].nlinks - 1) % 256,
                                entries := nodes1[d].entries[i := nodes1[d].entries[i].(nr := 0)])],
         t.ibits[k := false])
  }

  lemma RemovedCounts(t: Tree, d: nat, i: nat, k: nat, m: nat)
    requires Removable(t, d, i, k)
    ensures LinksOk(Removed(t, d, i, k), m) && t.nodes[d].nlinks >= 2
  {
    NothingInside(t, d, i, k);
    assert LinksOk(t, m) && LinksOk(t, d) && DirOk(t, d);
    var t' := Removed(t, d, i, k);
    var nodes1 := t.nodes[k := t'.nodes[k]];
    EmptyCounts(t, d, i, k);
    RemovedCount(t, d, i, k, d);
    CountInSome(Entries(t', d), 0, d);
    CountToSome(t'.nodes, |t'.nodes|, d, d);
    if 0 < m < |t.nodes| {
      RemovedCount(t, d, i, k, m);
    }
  }

  lemma RemovedCount(t: Tree, d: nat, i: nat, k: nat, m: nat)
    requires Removable(t, d, i, k) && m > 0
    ensures CountAll(Removed(t, d, i, k).nodes, m) == CountAll(t.nodes, m) - (if m == k then 2 else 0) - if m == d then 1 else 0
  {
    var t' := Removed(t, d, i, k);
    var nodes1 := t.nodes[k := t'.nodes[k]];
    CountUpdate(t.nodes, k, t'.nodes[k], m);
    CountUpdate(nodes1, d, t'.nodes[d], m);
    CountInUpdate(Entries(t, d), i, Entries(t, d)[i].(nr := 0), m);
    OwnEntries(t, d, i, k, m);
    assert Entries(t', k) == [];
  }

  lemma RemovedDirs(t: Tree, d: nat, i: nat, k: nat, x: nat)
    requires Removable(t, d, i, k)
    ensures var t' := Removed(t, d, i, k);
      IsDir(t', x) == (IsDir(t, x) && x != k) && (IsDir(t', x) ==> ParentOf(t', x) == ParentOf(t, x))
  {
    NothingInside(t, d, i, k);
    assert DirOk(t, d);
  }

  lemma RemovedOk(t: Tree, d: nat, i: nat, k: nat, x: nat)
    requires Removable(t, d, i, k)
    ensures var t' := Removed(t, d, i, k); DirOk(t', x) && NamedOk(t', x) && PlainOk(t', x)
  {
    var t' := Removed(t, d, i, k);
    NothingInside(t, d, i, k);
    RemovedDirs(t, d, i, k, x);
    assert DirOk(t, x) && NamedOk(t, x) && PlainOk(t, x) && DirOk(t, ROOT);
    if IsDir(t', x) {
      var p := ParentOf(t, x);
      RemovedDirs(t, d, i, k, p);
      forall a: nat, b: nat ensures Differ(Entries(t', x), a, b) {
        assert Differ(Entries(t, x), a, b);
      }
      if x != ROOT {
        var j :| 2 <= j < |Entries(t, p)| && Entries(t, p)[j].nr == x;
        assert Entries(t', p)[j].nr == x;
      }
    }
  }

  lemma RemovedChild(t: Tree, d: nat, i: nat, k: nat, x: nat, j: nat)
    requires Removable(t, d, i, k)
    ensures ChildOk(Removed(t, d, i, k), x, j)
  {
    var t' := Removed(t, d, i, k);
    assert ChildOk(t, x, j);
    RemovedDirs(t, d, i, k, x);
    if IsDir(t', x) && 2 <= j < |Entries(t', x)| {
      RemovedDirs(t, d, i, k, Entries(t', x)[j].nr);
    }
  }

  lemma RemovedKeeps(t: Tree, d: nat, i: nat, k: nat)
    requires Removable(t, d, i, k)
    ensures Inv(Removed(t, d, i, k))
  {
    hide DirOk, NamedOk, PlainOk, LinksOk, ChildOk;
    var t' := Removed(t, d, i, k);
    NothingInside(t, d, i, k);
    forall x: nat ensures DirOk(t', x) && NamedOk(t', x) && PlainOk(t', x) && LinksOk(t', x) {
      RemovedOk(t, d, i, k, x);
      RemovedCounts(t, d, i, k, x);
    }
    forall x: nat, j: nat ensures ChildOk(t', x, j) {
      RemovedChild(t, d, i, k, x, j);
    }
    RemovedDirs(t, d, i, k, ROOT);
    forall x: nat, j | 0 <= j < |Entries(t', x)| ensures Entries(t', x)[j].nr < |t'.nodes| {
      assert x != k && (Entries(t', x)[j].nr == 0 || Entries(t', x)[j] == Entries(t, x)[j]);
    }
  }

  /** minix_rmdir keeps the links exact; the directory it removes has exactly two links, and
      the one it is removed from keeps more than none: its two assertions hold. */
  lemma RmdirKeeps(t: Tree, d: nat, name: string, busy: bool)
    requires Inv(t) && IsDir(t, d) && Rmdir(t, d, name, busy).Ok?
    ensures Inv(Rmdir(t, d, name, busy).t)
    ensures t.nodes[Entries(t, d)[Find(Entries(t, d), name)].nr].nlinks == 2
    ensures Rmdir(t, d, name, busy).t.nodes[d].nlinks > 0
  {
    hide DirOk, NamedOk, PlainOk, LinksOk, ChildOk;
    var i := Find(Entries(t, d), name);
    var k := Entries(t, d)[i].nr;
    NamedIsUsed(t, d, i);
    assert Removable(t, d, i, k);
    EmptyCounts(t, d, i, k);
    RemovedKeeps(t, d, i, k);
    RemovedCounts(t, d, i, k, d);
  }

  /** rmdir succeeds for every name of an empty directory that is not in use, other than ".". */
  lemma RmdirRemoves(t: Tree, d: nat, name: string, busy: bool)
    requires Inv(t) && IsDir(t, d)
    ensures Rmdir(t, d, name, busy).Ok? <==>
      exists i: nat :: i < |Entries(t, d)| && Entries(t, d)[i].name == name && !busy &&
        Entries(t, d)[i].nr != 0 && Removable(t, d, i, Entries(t, d)[i].nr)
  {
    var f := Find(Entries(t, d), name);
    assert DirOk(t, d);
    if f < |Entries(t, d)| {
      NamedIsUsed(t, d, f);
      forall i: nat | i < |Entries(t, d)| && Entries(t, d)[i].name == name && Entries(t, d)[i].nr != 0 ensures i == f {
        assert Differ(Entries(t, d), f, i) && Differ(Entries(t, d), i, f);
      }
    }
  }

  // ---------------------------------------------------------------- runs

  /** The system calls, on directories that exist.  `Mknod` is for all but directories. */
  datatype Call =
    | Open(d: nat, name: string)
    | Mknod(d: nat, name: string, kind: Kind)
    | MakeDir(d: nat, name: string)
    | RemoveDir(d: nat, name: string, busy: bool)
    | HardLink(od: nat, oldname: string, nd: nat, newname: string)
    | Remove(d: nat, name: string)

  /** Paths lead to directories, and there is an inode for a new name. */
  predicate Allowed(t: Tree, c: Call) {
    match c
    case Open(d, name) => IsDir(t, d) && Room(t, d, name)
    case Mknod(d, name, _) => IsDir(t, d) && Room(t, d, name)
    case MakeDir(d, name) => IsDir(t, d) && Room(t, d, name)
    case RemoveDir(d, _, _) => IsDir(t, d)
    case HardLink(od, _, nd, _) => IsDir(t, od) && IsDir(t, nd)
    case Remove(d, _) => IsDir(t, d)
  }

  function Do(t: Tree, c: Call): Result
    requires Allowed(t, c)
  {
    match c
    case Open(d, name) => Create(t, d, name, File)
    case Mknod(d, name, kind) => Create(t, d, name, kind)
    case MakeDir(d, name) => Mkdir(t, d, name)
    case RemoveDir(d, name, busy) => Rmdir(t, d, name, busy)
    case HardLink(od, oldname, nd, newname) => Link(t, od, oldname, nd, newname)
    case Remove(d, name) => Unlink(t, d, name)
  }

  /** A call that fails changes nothing. */
  function Next(t: Tree, c: Call): Tree
    requires Allowed(t, c)
  {
    var r := Do(t, c);
    if r.Ok? then r.t else t
  }

  /** What the code does not look at: mknod is not asked for a directory, and no link count that
      is 255 is raised. */
  predicate Safe(t: Tree, c: Call)
    requires Allowed(t, c)
  {
    Do(t, c).Ok? ==>
      match c
      case Mknod(_, _, kind) => kind != Dir
      case MakeDir(d, _) => t.nodes[d].nlinks < 255
      case HardLink(od, oldname, _, _) =>
        var i := Find(Entries(t, od), oldname);
        i < |Entries(t, od)| && Entries(t, od)[i].nr < |t.nodes| ==> t.nodes[Entries(t, od)[i].nr].nlinks < 255
      case _ => true
  }

  /** A call keeps the invariant exactly when it is safe in this sense. */
  lemma NextKeeps(t: Tree, c: Call)
    requires Inv(t) && Allowed(t, c)
    ensures Inv(Next(t, c)) <==> Safe(t, c)
  {
    hide Inv, Rmdir, Unlink;
    if Do(t, c).Ok? {
      match c
      case Open(d, name) => CreateKeeps(t, d, name, File);
      case Mknod(d, name, kind) => CreateKeeps(t, d, name, kind);
      case MakeDir(d, name) => MkdirKeeps(t, d, name);
      case RemoveDir(d, name, busy) => RmdirKeeps(t, d, name, busy);
      case HardLink(od, oldname, nd, newname) => LinkCall(t, od, oldname, nd, newname);
      case Remove(d, name) => UnlinkKeeps(t, d, name);
    }
  }

  lemma LinkCall(t: Tree, od: nat, oldname: string, nd: nat, newname: string)
    requires Inv(t) && Allowed(t, HardLink(od, oldname, nd, newname)) && Link(t, od, oldname, nd, newname).Ok?
    ensures Inv(Link(t, od, oldname, nd, newname).t) <==> Safe(t, HardLink(od, oldname, nd, newname))
  {
    hide Inv, LinksOk;
    NamedIsUsed(t, od, Find(Entries(t, od), oldname));
    LinkKeeps(t, od, oldname, nd, newname);
  }

  ghost predicate Run(states: seq<Tree>, calls: seq<Call>) {
    |states| == |calls| + 1 &&
    forall i :: 0 <= i < |calls| ==> Allowed(states[i], calls[i]) && states[i + 1] == Next(states[i], calls[i])
  }

  /** In every run, after every call, every link count is exact, names are distinct, and an
      inode is free exactly when nothing names it. */
  lemma {:induction false} RunKeeps(states: seq<Tree>, calls: seq<Call>, n: nat)
    requires Run(states, calls) && Inv(states[0]) && n <= |calls|
    requires forall i :: 0 <= i < n ==> Safe(states[i], calls[i])
    ensures Inv(states[n])
  {
    hide Inv, Allowed, Next, Safe;
    if n > 0 {
      RunKeeps(states, calls, n - 1);
      NextKeeps(states[n - 1], calls[n - 1]);
    }
  }

  // ---------------------------------------------------------------- what the counts mean

  /** The subdirectories of k among the first n inodes. */
  function Subdirs(t: Tree, n: nat, k: nat): nat {
    if n == 0 then 0 else Subdirs(t, n - 1, k) + if IsDir(t, n - 1) && n - 1 != k && ParentOf(t, n - 1) == k then 1 else 0
  }

  lemma {:induction false} CountSplit(es: seq<Dentry>, n: nat, k: nat)
    requires n <= |es|
    ensures CountIn(es, k) == CountIn(es[..n], k) + CountIn(es[n..], k)
    decreases |es|
  {
    if n == |es| {
      assert es[..n] == es;
    } else {
      CountSplit(es[..|es| - 1], n, k);
      assert es[..|es| - 1][..n] == es[..n] && es[..|es| - 1][n..] == es[n..][..|es[n..]| - 1];
    }
  }

  /** How often directory x names directory k: by ".", by "..", and by the name of k. */
  lemma NamesOf(t: Tree, k: nat, x: nat)
    requires Inv(t) && IsDir(t, k) && x < |t.nodes|
    ensures CountIn(Entries(t, x), k) ==
      (if IsDir(t, x) && x != k && ParentOf(t, x) == k then 1 else 0) +
      (if x == k then if k == ROOT then 2 else 1 else 0) + (if k != ROOT && x == ParentOf(t, k) then 1 else 0)
  {
    assert DirOk(t, x) && NamedOk(t, x) && PlainOk(t, x) && DirOk(t, k) && NamedOk(t, k);
    if IsDir(t, x) {
      var es := Entries(t, x);
      CountSplit(es, 2, k);
      TwoEntries(es[..2], k);
      if k != ROOT && x == ParentOf(t, k) {
        var i :| 2 <= i < |es| && es[i].nr == k;
        assert ChildOk(t, x, i);
        CountInOne(es[2..], i - 2, k);
      } else {
        forall j | 2 <= j < |es| ensures es[j].nr != k {
          assert ChildOk(t, x, j);
        }
        CountInNone(es[2..], k);
      }
    }
  }

  lemma {:induction false} NamesTo(t: Tree, n: nat, k: nat)
    requires Inv(t) && IsDir(t, k) && n <= |t.nodes|
    ensures CountTo(t.nodes, n, k) == Subdirs(t, n, k) +
      (if k < n then if k == ROOT then 2 else 1 else 0) + (if k != ROOT && ParentOf(t, k) < n then 1 else 0)
  {
    if n > 0 {
      NamesTo(t, n - 1, k);
      NamesOf(t, k, n - 1);
    }
  }

  /** The link count of a directory is 2 plus its subdirectories. */
  lemma DirectoryLinks(t: Tree, k: nat)
    requires Inv(t) && IsDir(t, k)
    ensures t.nodes[k].nlinks == 2 + Subdirs(t, |t.nodes|, k)
  {
    NamesTo(t, |t.nodes|, k);
    assert LinksOk(t, k) && DirOk(t, k);
  }
}
