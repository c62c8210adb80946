/** What each call on directories does to the names: exactly one name changes. */
module MinixNames {
  import opened Words
  import opened MinixDir
  import opened MinixLinks
  import opened MinixRmdir

  /** The inode a name stands for, as minix_namei finds it. */
  function LookupIn(es: seq<Dentry>, name: string): Option<nat> {
    var i := Find(es, name);
    if i < |es| then Some(es[i].nr) else None
  }

  function Lookup(t: Tree, d: nat, name: string): Option<nat> {
    LookupIn(Entries(t, d), name)
  }

  /** With distinct names, a live entry is the one that is found. */
  lemma EntryIsFound(es: seq<Dentry>, i: nat)
    requires Distinct(es) && i < |es| && es[i].nr != 0
    ensures Find(es, es[i].name) == i && LookupIn(es, es[i].name) == Some(es[i].nr)
  {
    var f := Find(es, es[i].name);
    assert Differ(es, f, i) && Differ(es, i, f);
  }

  lemma AddedName(es: seq<Dentry>, e: Dentry, name: string)
    requires Distinct(es) && Find(es, e.name) == |es| && e.nr != 0
    ensures LookupIn(Add(es, e), name) == if name == e.name then Some(e.nr) else LookupIn(es, name)
  {
    var r, p := Add(es, e), FirstFree(es);
    AddAt(es, e);
    AddDistinct(es, e);
    if name == e.name {
      EntryIsFound(r, p);
    } else {
      var i := Find(es, name);
      if i < |es| {
        EntryIsFound(r, i);
      }
    }
  }

  lemma ClearedName(es: seq<Dentry>, i: nat, name: string)
    requires Distinct(es) && i < |es| && es[i].nr != 0
    ensures LookupIn(es[i := es[i].(nr := 0)], name) == if name == es[i].name then None else LookupIn(es, name)
  {
    var r := es[i := es[i].(nr := 0)];
    ClearedDistinct(es, i);
    var j, k := Find(es, name), Find(r, name);
    if j < |es| && j != i {
      EntryIsFound(r, j);
    }
    if k < |r| {
      assert k != i;
      EntryIsFound(es, k);
    }
    if j == i {
      assert name == es[i].name;
    }
    if name == es[i].name {
      EntryIsFound(es, i);
    }
  }

  /** Creating a file: the new name stands for the new inode, every other name of every
      directory for what it stood for. */
  lemma CreateNames(t: Tree, d: nat, name: string, kind: Kind, x: nat, n: string)
    requires Inv(t) && IsDir(t, d) && CanAlloc(t) && Create(t, d, name, kind).Ok? && IsDir(t, x)
    ensures Lookup(Create(t, d, name, kind).t, x, n) == if x == d && n == name then Some(Ialloc(t)) else Lookup(t, x, n)
  {
    IallocIsFree(t);
    assert DirOk(t, d);
    AddedName(Entries(t, d), Dentry(Ialloc(t), name), n);
  }

  /** Making a directory: likewise, and in the new one "." and ".." stand for it and its parent. */
  lemma MkdirNames(t: Tree, d: nat, name: string, x: nat, n: string)
    requires Inv(t) && IsDir(t, d) && CanAlloc(t) && Mkdir(t, d, name).Ok? && IsDir(t, x)
    ensures Lookup(Mkdir(t, d, name).t, x, n) == if x == d && n == name then Some(Ialloc(t)) else Lookup(t, x, n)
    ensures Lookup(Mkdir(t, d, name).t, Ialloc(t), n) == if n == "." then Some(Ialloc(t)) else if n == ".." then Some(d) else None
  {
    IallocIsFree(t);
    assert DirOk(t, d);
    AddedName(Entries(t, d), Dentry(Ialloc(t), name), n);
    FreshNames([Dentry(Ialloc(t), "."), Dentry(d, "..")], n);
    hide Find, Add;
    assert Entries(Mkdir(t, d, name).t, Ialloc(t)) == [Dentry(Ialloc(t), "."), Dentry(d, "..")];
  }

  lemma FreshNames(es: seq<Dentry>, n: string)
    requires |es| == 2 && es[0].name == "." && es[1].name == ".." && es[0].nr != 0 && es[1].nr != 0
    ensures LookupIn(es, n) == if n == "." then Some(es[0].nr) else if n == ".." then Some(es[1].nr) else None
  {
    assert |es[0].name| == 1 && |es[1].name| == 2;
    hide Find;
    var i := Find(es, n);
    assert i == if n == "." then 0 else if n == ".." then 1 else 2;
  }

  /** Linking: the new name stands for the inode of the old one, which keeps its name. */
  lemma LinkNames(t: Tree, od: nat, oldname: string, nd: nat, newname: string, x: nat, n: string)
    requires Inv(t) && IsDir(t, od) && IsDir(t, nd) && Link(t, od, oldname, nd, newname).Ok? && IsDir(t, x)
    ensures Lookup(t, od, oldname).Some?
    ensures Lookup(Link(t, od, oldname, nd, newname).t, x, n) ==
      if x == nd && n == newname then Lookup(t, od, oldname) else Lookup(t, x, n)
  {
    assert DirOk(t, nd);
    var k := Entries(t, od)[Find(Entries(t, od), oldname)].nr;
    AddedName(Entries(t, nd), Dentry(k, newname), n);
    assert t.nodes[k].kind != Dir;
  }

  /** Unlinking: that name and no other is gone. */
  lemma UnlinkNames(t: Tree, d: nat, name: string, x: nat, n: string)
    requires Inv(t) && IsDir(t, d) && Unlink(t, d, name).Ok? && IsDir(t, x)
    ensures Lookup(Unlink(t, d, name).t, x, n) == if x == d && n == name then None else Lookup(t, x, n)
  {
    hide Inv, Find, Distinct, IsDir;
    DistinctNames(t, d);
    UnlinkEntries(t, d, name, x);
    ClearedName(Entries(t, d), Find(Entries(t, d), name), n);
  }

  lemma DistinctNames(t: Tree, d: nat)
    requires Inv(t) && IsDir(t, d)
    ensures Distinct(Entries(t, d)) && d < |t.nodes|
  {
    assert DirOk(t, d);
  }

  lemma UnlinkEntries(t: Tree, d: nat, name: string, x: nat)
    requires d < |t.nodes| && Unlink(t, d, name).Ok?
    ensures var es, i := Entries(t, d), Find(Entries(t, d), name);
      i < |es| && es[i].nr != 0 && es[i].name == name &&
      Entries(Unlink(t, d, name).t, x) == if x == d then es[i := es[i].(nr := 0)] else Entries(t, x)
  {
  }

  /** Removing a directory: its name is gone, and all names in it, which were "." and "..". */
  lemma RmdirNames(t: Tree, d: nat, name: string, busy: bool, x: nat, n: string)
    requires Inv(t) && IsDir(t, d) && Rmdir(t, d, name, busy).Ok? && IsDir(t, x)
    ensures Lookup(t, d, name).Some?
    ensures Lookup(Rmdir(t, d, name, busy).t, x, n) ==
      if (x == d && n == name) || Some(x) == Lookup(t, d, name) then None else Lookup(t, x, n)
    ensures Some(x) == Lookup(t, d, name) ==> (Lookup(t, x, n).Some? <==> n == "." || n == "..")
  {
    var i := Find(Entries(t, d), name);
    var k := Entries(t, d)[i].nr;
    NamedIsUsed(t, d, i);
    assert Removable(t, d, i, k);
    NothingInside(t, d, i, k);
    assert DirOk(t, d) && DirOk(t, k);
    ClearedName(Entries(t, d), i, n);
    if x == k {
      EntryIsFound(Entries(t, k), 0);
      EntryIsFound(Entries(t, k), 1);
    }
  }
}
