/** Directories updated in place, as minix.c does it: each call searches, then writes entries,
    link counts and the inode map one after the other. */
module MinixNamespace {
  import opened Words
  import opened MinixDir
  import Bitmap

  lemma NumberLater(es: seq<Dentry>, name: string, k: nat)
    ensures FirstFree(es) < |Add(es, Dentry(0, name))|
    ensures var es' := Add(es, Dentry(0, name)); var i := FirstFree(es);
      es'[i := es'[i].(nr := k)] == Add(es, Dentry(k, name))
  {
  }

  class Directories {
    const nodes: array<Node>
    const ibits: array<bv8>       // the block of the inode map

    ghost predicate Separate() {
      var a: object, b: object := nodes, ibits;
      a != b
    }

    ghost function State(): Tree
      reads nodes, ibits
    {
      Tree(nodes[..], Bitmap.Bits(ibits[..]))
    }

    /** find_entry. */
    method FindEntry(d: nat, name: string) returns (i: nat)
      requires d < nodes.Length
      ensures i == Find(Entries(State(), d), name)
    {
      var es := nodes[d].entries;
      i := 0;
      while i < |es|
        invariant 0 <= i <= |es| && Find(es, name) == i + Find(es[i..], name)
      {
        if es[i].name == name && es[i].nr != 0 {
          return;
        }
        assert es[i..][1..] == es[i + 1..];
        i := i + 1;
      }
    }

    /** add_entry, for a name that is not there: the first free entry gets it, or a new one at
        the end; its number is set by the caller. */
    method AddEntry(d: nat, name: string) returns (i: nat)
      requires Separate() && d < nodes.Length
      modifies nodes
      ensures State() == WithEntries(old(State()), d, Add(Entries(old(State()), d), Dentry(0, name)))
      ensures i == FirstFree(Entries(old(State()), d))
    {
      var es := nodes[d].entries;
      i := 0;
      while true
        invariant 0 <= i <= |es| && FirstFree(es) == i + FirstFree(es[i..])
        decreases |es| - i
      {
        if i >= |es| {
          es := es + [Dentry(0, "")];
          break;
        }
        if es[i].nr == 0 {
          break;
        }
        assert es[i..][1..] == es[i + 1..];
        i := i + 1;
      }
      nodes[d] := nodes[d].(entries := es[i := Dentry(0, name)]);
      assert nodes[d].entries == Add(old(nodes[d].entries), Dentry(0, name));
      assert nodes[..] == old(nodes[..])[d := nodes[d]];
      assert ibits[..] == old(ibits[..]);
    }

    method SetNumber(d: nat, i: nat, nr: nat)
      requires Separate() && d < nodes.Length && i < |nodes[d].entries|
      modifies nodes
      ensures State() == WithEntries(old(State()), d, old(nodes[d].entries)[i := old(nodes[d].entries[i]).(nr := nr)])
    {
      nodes[d] := nodes[d].(entries := nodes[d].entries[i := nodes[d].entries[i].(nr := nr)]);
      assert nodes[..] == old(nodes[..])[d := nodes[d]];
      assert ibits[..] == old(ibits[..]);
    }

    method SetNode(k: nat, node: Node)
      requires Separate() && k < nodes.Length
      modifies nodes
      ensures State() == old(State()).(nodes := old(State()).nodes[k := node])
    {
      nodes[k] := node;
      assert ibits[..] == old(ibits[..]);
    }

    /** minix_ialloc. */
    method IallocBit() returns (k: nat)
      requires Separate() && CanAlloc(State())
      modifies ibits
      ensures k == Ialloc(old(State()))
      ensures State() == old(State()).(ibits := old(State()).ibits[k := true])
    {
      ghost var b := Bitmap.Bits(ibits[..]);
      var m := new Bitmap.Map.Make(ibits, 0);
      k := m.Scan(1);
      assert Bitmap.Filled(b, k, 1) == b[k := true];
      assert nodes[..] == old(nodes[..]);
    }

    /** minix_ifree; the assertion on the bit is its precondition. */
    method IfreeBit(k: nat)
      requires Separate() && k < |State().ibits| && State().ibits[k]
      modifies ibits
      ensures State() == old(State()).(ibits := old(State()).ibits[k := false])
    {
      var m := new Bitmap.Map.Make(ibits, 0);
      m.Set(k, false);
      assert nodes[..] == old(nodes[..]);
    }

    /** The name and the number of a new inode. */
    method Enter(d: nat, name: string) returns (k: nat)
      requires Separate() && d < nodes.Length && CanAlloc(State())
      modifies nodes, ibits
      ensures k == Ialloc(old(State()))
      ensures State() == WithEntries(old(State()), d, Add(Entries(old(State()), d), Dentry(k, name)))
        .(ibits := old(State()).ibits[k := true])
    {
      NumberLater(nodes[d].entries, name, Ialloc(State()));
      var i := AddEntry(d, name);
      k := IallocBit();
      SetNumber(d, i, k);
    }

    /** minix_open with O_CREAT, and minix_mknod. */
    method CreateNode(d: nat, name: string, kind: Kind) returns (r: Option<Error>)
      requires Separate() && d < nodes.Length && Room(State(), d, name)
      modifies nodes, ibits
      ensures Outcome(Create(old(State()), d, name, kind), old(State()), State(), r)
    {
      var i := FindEntry(d, name);
      if i < |nodes[d].entries| {
        return Some(EEXIST);
      }
      var k := Enter(d, name);
      SetNode(k, Node(kind, 1, []));
      r := None;
    }

    /** minix_mkdir. */
    method MakeDir(d: nat, name: string) returns (r: Option<Error>)
      requires Separate() && d < nodes.Length && Room(State(), d, name)
      modifies nodes, ibits
      ensures Outcome(Mkdir(old(State()), d, name), old(State()), State(), r)
    {
      var i := FindEntry(d, name);
      if i < |nodes[d].entries| {
        return Some(EEXIST);
      }
      var k := Enter(d, name);
      SetNode(k, Node(Dir, 2, [Dentry(k, "."), Dentry(d, "..")]));
      SetNode(d, nodes[d].(nlinks := (nodes[d].nlinks + 1) % 256));
      r := None;
    }

    /** is_empty. */
    method Empty(k: nat) returns (r: bool)
      requires k < nodes.Length
      ensures r == IsEmpty(Entries(State(), k))
    {
      var es := nodes[k].entries;
      if |es| < 2 {
        return false;
      }
      var i, count := 0, 0;
      while i < |es|
        invariant 0 <= i <= |es| && count == CountLive(es[..i])
      {
        assert es[..i + 1][..i] == es[..i];
        if es[i].nr != 0 {
          count := count + 1;
        }
        i := i + 1;
      }
      assert es[..i] == es;
      r := count == 2;
    }

    /** minix_rmdir. */
    method RemoveDir(d: nat, name: string, busy: bool) returns (r: Option<Error>)
      requires Separate() && d < nodes.Length
      requires var i := Find(Entries(State(), d), name); i < |Entries(State(), d)| ==>
        (var k := Entries(State(), d)[i].nr; k < nodes.Length && k < |State().ibits| && State().ibits[k])
      modifies nodes, ibits
      ensures Outcome(Rmdir(old(State()), d, name, busy), old(State()), State(), r)
    {
      hide Bitmap.Bits, IsEmpty;
      var i := FindEntry(d, name);
      if i == |nodes[d].entries| {
        return Some(ENOENT);
      }
      var k := nodes[d].entries[i].nr;
      if k == d {
        return Some(EPERM);
      }
      if nodes[k].kind != Dir {
        return Some(ENOTDIR);
      }
      if busy {
        return Some(EPERM);
      }
      var empty := Empty(k);
      if !empty {
        return Some(ENOTEMPTY);
      }
      SetNode(k, nodes[k].(entries := []));
      IfreeBit(k);
      SetNode(k, nodes[k].(nlinks := 0));
      SetNode(d, nodes[d].(nlinks := (nodes[d].nlinks - 1) % 256));
      SetNumber(d, i, 0);
      r := None;
    }

    /** minix_link. */
    method HardLink(od: nat, oldname: string, nd: nat, newname: string) returns (r: Option<Error>)
      requires Separate() && od < nodes.Length && nd < nodes.Length
      requires forall i :: 0 <= i < |nodes[od].entries| ==> nodes[od].entries[i].nr < nodes.Length
      modifies nodes
      ensures Outcome(Link(old(State()), od, oldname, nd, newname), old(State()), State(), r)
    {
      hide Add, FirstFree, Bitmap.Bits;
      var i := FindEntry(od, oldname);
      if i == |nodes[od].entries| {
        return Some(ENOENT);
      }
      var k := nodes[od].entries[i].nr;
      if nodes[k].kind == Dir {
        return Some(EPERM);
      }
      if nodes[nd].kind != Dir {
        return Some(EPERM);
      }
      var j := FindEntry(nd, newname);
      if j < |nodes[nd].entries| {
        return Some(EEXIST);
      }
      NumberLater(nodes[nd].entries, newname, k);
      var p := AddEntry(nd, newname);
      SetNumber(nd, p, k);
      SetNode(k, nodes[k].(nlinks := (nodes[k].nlinks + 1) % 256));
      r := None;
    }

    /** minix_unlink. */
    method Remove(d: nat, name: string) returns (r: Option<Error>)
      requires Separate() && d < nodes.Length
      requires var i := Find(Entries(State(), d), name); i < |Entries(State(), d)| ==>
        (var k := Entries(State(), d)[i].nr; k < nodes.Length && k < |State().ibits| && State().ibits[k])
      modifies nodes, ibits
      ensures Outcome(Unlink(old(State()), d, name), old(State()), State(), r)
    {
      var i := FindEntry(d, name);
      if i == |nodes[d].entries| {
        return Some(ENOENT);
      }
      var k := nodes[d].entries[i].nr;
      if nodes[k].kind == Dir {
        return Some(EPERM);
      }
      SetNumber(d, i, 0);
      SetNode(k, nodes[k].(nlinks := (nodes[k].nlinks - 1) % 256));
      if nodes[k].nlinks == 0 {
        IfreeBit(k);
      }
      r := None;
    }
  }

  /** The call did what the specification says, and failed with the right error if it did. */
  predicate Outcome(spec: Result, before: Tree, after: Tree, r: Option<Error>) {
    match spec
    case Ok(t) => after == t && r == None
    case Fail(e) => after == before && r == Some(e)
  }
}
