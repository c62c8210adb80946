/** When each call on directories succeeds, with which error it fails otherwise, and what it leaves
    as it is. */
module MinixOutcomes {
  import opened Words
  import opened MinixDir
  import opened MinixLinks
  import opened MinixRmdir
  import Bitmap

  /** A live entry of directory d gives inode k the name. */
  ghost predicate Names(t: Tree, d: nat, name: string, k: nat) {
    k != 0 && exists i :: 0 <= i < |Entries(t, d)| && Entries(t, d)[i] == Dentry(k, name)
  }

  ghost predicate Named(t: Tree, d: nat, name: string) {
    exists k: nat :: Names(t, d, name, k)
  }

  /** The name stands for a directory. */
  ghost predicate NamesDir(t: Tree, d: nat, name: string) {
    exists k: nat :: Names(t, d, name, k) && k < |t.nodes| && t.nodes[k].kind == Dir
  }

  /** What is found is what the name stands for. */
  lemma Found(t: Tree, d: nat, name: string)
    requires Inv(t) && IsDir(t, d)
    ensures var es, i := Entries(t, d), Find(Entries(t, d), name);
      if i < |es| then es[i].nr < |t.nodes| && es[i].nr < |t.ibits| && t.ibits[es[i].nr] && forall k :: Names(t, d, name, k) <==> k == es[i].nr
      else !Named(t, d, name)
  {
    var es, i := Entries(t, d), Find(Entries(t, d), name);
    assert DirOk(t, d);
    if i < |es| {
      NamedIsUsed(t, d, i);
      assert Names(t, d, name, es[i].nr) by { assert es[i] == Dentry(es[i].nr, name); }
      forall k | Names(t, d, name, k) ensures k == es[i].nr {
        var j :| 0 <= j < |es| && es[j] == Dentry(k, name);
        assert Differ(es, i, j) && Differ(es, j, i);
      }
    }
  }

  /** An inode can be had exactly when one is free. */
  lemma AllocWhen(t: Tree)
    requires Inv(t)
    ensures CanAlloc(t) <==> exists k :: 0 < k < |t.nodes| && !t.ibits[k]
  {
    Bitmap.FirstRunIsFirst(t.ibits, 0, 1);
    if k :| 0 < k < |t.nodes| && !t.ibits[k] {
      assert Bitmap.ClearRun(t.ibits, k, 1);
    }
    if CanAlloc(t) {
      IallocIsFree(t);
    }
  }

  /** The new inode is of the kind asked for, and no other changes its kind. */
  ghost predicate KindsAre(t: Tree, t': Tree, k: nat, kind: Kind) {
    |t'.nodes| == |t.nodes| &&
    forall x :: 0 <= x < |t.nodes| ==> t'.nodes[x].kind == if x == k then kind else t.nodes[x].kind
  }

  /** minix_open with O_CREAT for a name that is not there, and minix_mknod. */
  lemma CreateOutcome(t: Tree, d: nat, name: string, kind: Kind)
    requires Inv(t) && IsDir(t, d) && Room(t, d, name)
    ensures Create(t, d, name, kind) == Fail(EEXIST) <==> Named(t, d, name)
    ensures Create(t, d, name, kind).Ok? <==> !Named(t, d, name)
    ensures Create(t, d, name, kind).Ok? ==> KindsAre(t, Create(t, d, name, kind).t, Ialloc(t), kind)
  {
    Found(t, d, name);
    hide Inv, Names, Find, Add;
    if Find(Entries(t, d), name) < |Entries(t, d)| {
      assert Names(t, d, name, Entries(t, d)[Find(Entries(t, d), name)].nr);
    } else {
      IallocIsFree(t);
    }
  }

  lemma MkdirOutcome(t: Tree, d: nat, name: string)
    requires Inv(t) && IsDir(t, d) && Room(t, d, name)
    ensures Mkdir(t, d, name) == Fail(EEXIST) <==> Named(t, d, name)
    ensures Mkdir(t, d, name).Ok? <==> !Named(t, d, name)
    ensures Mkdir(t, d, name).Ok? ==> KindsAre(t, Mkdir(t, d, name).t, Ialloc(t), Dir)
  {
    Found(t, d, name);
    hide Inv, Names, Find, Add;
    if Find(Entries(t, d), name) < |Entries(t, d)| {
      assert Names(t, d, name, Entries(t, d)[Find(Entries(t, d), name)].nr);
    } else {
      IallocIsFree(t);
    }
  }

  /** Files can be removed, directories cannot. */
  lemma UnlinkOutcome(t: Tree, d: nat, name: string)
    requires Inv(t) && IsDir(t, d)
    ensures Unlink(t, d, name) == Fail(ENOENT) <==> !Named(t, d, name)
    ensures Unlink(t, d, name) == Fail(EPERM) <==> NamesDir(t, d, name)
    ensures Unlink(t, d, name).Ok? <==> Named(t, d, name) && !NamesDir(t, d, name)
    ensures Unlink(t, d, name).Ok? ==> KindsAre(t, Unlink(t, d, name).t, 0, t.nodes[0].kind)
  {
    Found(t, d, name);
    hide Inv, Names, Find;
    if Find(Entries(t, d), name) < |Entries(t, d)| {
      assert Names(t, d, name, Entries(t, d)[Find(Entries(t, d), name)].nr);
    }
  }

  lemma LinkOutcome(t: Tree, od: nat, oldname: string, nd: nat, newname: string)
    requires Inv(t) && IsDir(t, od) && IsDir(t, nd)
    ensures Link(t, od, oldname, nd, newname) == Fail(ENOENT) <==> !Named(t, od, oldname)
    ensures Link(t, od, oldname, nd, newname) == Fail(EPERM) <==> NamesDir(t, od, oldname)
    ensures Link(t, od, oldname, nd, newname) == Fail(EEXIST) <==>
      Named(t, od, oldname) && !NamesDir(t, od, oldname) && Named(t, nd, newname)
    ensures Link(t, od, oldname, nd, newname).Ok? <==>
      Named(t, od, oldname) && !NamesDir(t, od, oldname) && !Named(t, nd, newname)
    ensures Link(t, od, oldname, nd, newname).Ok? ==>
      KindsAre(t, Link(t, od, oldname, nd, newname).t, 0, t.nodes[0].kind)
  {
    Found(t, od, oldname);
    Found(t, nd, newname);
    hide Inv, Names, Find, Add;
    if Find(Entries(t, od), oldname) < |Entries(t, od)| {
      assert Names(t, od, oldname, Entries(t, od)[Find(Entries(t, od), oldname)].nr);
    }
    if Find(Entries(t, nd), newname) < |Entries(t, nd)| {
      assert Names(t, nd, newname, Entries(t, nd)[Find(Entries(t, nd), newname)].nr);
    }
  }

  /** The directory has no live entry but its first two. */
  ghost predicate NothingIn(t: Tree, k: nat) {
    forall i :: 2 <= i < |Entries(t, k)| ==> Entries(t, k)[i].nr == 0
  }

  /** The name stands for a directory, and that one is not empty. */
  ghost predicate NamesFullDir(t: Tree, d: nat, name: string) {
    exists k: nat :: Names(t, d, name, k) && k < |t.nodes| && t.nodes[k].kind == Dir && !NothingIn(t, k)
  }

  lemma RmdirOutcome(t: Tree, d: nat, name: string, busy: bool)
    requires Inv(t) && IsDir(t, d)
    ensures Rmdir(t, d, name, busy) == Fail(ENOENT) <==> !Named(t, d, name)
    ensures Rmdir(t, d, name, busy) == Fail(ENOTDIR) <==> Named(t, d, name) && !NamesDir(t, d, name)
    ensures Rmdir(t, d, name, busy) == Fail(EPERM) <==> Names(t, d, name, d) || (NamesDir(t, d, name) && busy)
    ensures Rmdir(t, d, name, busy) == Fail(ENOTEMPTY) <==>
      !Names(t, d, name, d) && !busy && NamesFullDir(t, d, name)
    ensures Rmdir(t, d, name, busy).Ok? <==>
      !Names(t, d, name, d) && !busy && NamesDir(t, d, name) && !NamesFullDir(t, d, name)
    ensures Rmdir(t, d, name, busy).Ok? ==> KindsAre(t, Rmdir(t, d, name, busy).t, 0, t.nodes[0].kind)
  {
    Found(t, d, name);
    var i := Find(Entries(t, d), name);
    if i < |Entries(t, d)| {
      var k := Entries(t, d)[i].nr;
      assert Names(t, d, name, k);
      if t.nodes[k].kind == Dir {
        assert DirOk(t, k);
        OnlyTwoLive(Entries(t, k));
      }
    }
    hide Inv, Names, Find, CountLive;
  }
}
