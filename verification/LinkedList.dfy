/** src/lib/list.c as it is: nodes linked both ways, between two sentinels. */
module LinkedList {
  import opened Lists

  class Node {
    var prev: Node?
    var next: Node?
    const key: int

    constructor (key: int)
      ensures prev == null && next == null && this.key == key
    {
      prev, next := null, null;
      this.key := key;
    }
  }

  function NodeKey(n: Node): int { n.key }

  ghost predicate Distinct(s: seq<Node>) {
    forall i, j :: 0 <= i < j < |s| ==> s[i] != s[j]
  }

  function Spliced(s: seq<Node>, p: nat, x: Node): (r: seq<Node>)
    requires p <= |s|
    ensures |r| == |s| + 1 && forall i :: 0 <= i < |r| ==> r[i] == if i < p then s[i] else if i == p then x else s[i - 1]
  {
    s[..p] + [x] + s[p..]
  }

  lemma SplicedDistinct(s: seq<Node>, p: nat, x: Node)
    requires Distinct(s) && p <= |s| && x !in s
    ensures Distinct(Spliced(s, p, x))
  {
  }

  function Cut(s: seq<Node>, p: nat): (r: seq<Node>)
    requires p < |s|
    ensures |r| == |s| - 1 && forall i :: 0 <= i < |r| ==> r[i] == if i < p then s[i] else s[i + 1]
  {
    s[..p] + s[p + 1..]
  }

  /** Each node points to its neighbours, and none hangs over the ends. */
  ghost predicate Chain(s: seq<Node>)
    reads s
  {
    Distinct(s) && s != [] && s[0].prev == null && s[|s| - 1].next == null &&
    forall i :: 0 <= i < |s| - 1 ==> s[i].next == s[i + 1] && s[i + 1].prev == s[i]
  }

  /** Neighbours point to each other, but for the pair at each place in `bent`. */
  ghost predicate Linked(s: seq<Node>, bent: set<int>)
    reads s
  {
    Distinct(s) && s != [] && s[0].prev == null && s[|s| - 1].next == null &&
    forall i :: 0 <= i < |s| - 1 && i !in bent ==> s[i].next == s[i + 1] && s[i + 1].prev == s[i]
  }

  /** A chain with x in front of the cell at place p, once the pointers there are bent. */
  lemma SpliceChain(s: seq<Node>, p: nat, x: Node)
    requires 0 < p < |s| && x !in s && Linked(s, {p - 1})
    requires s[p - 1].next == x && x.prev == s[p - 1] && x.next == s[p] && s[p].prev == x
    ensures Chain(Spliced(s, p, x))
  {
    var now := Spliced(s, p, x);
    SplicedDistinct(s, p, x);
    forall i | 0 <= i < |now| - 1 ensures now[i].next == now[i + 1] && now[i + 1].prev == now[i] {
      assert i < p - 1 ==> s[i].next == s[i + 1];
      assert i > p ==> s[i - 1].next == s[i];
    }
  }

  /** A chain without the cell at place p, once the pointers to it are bent. */
  lemma CutChain(s: seq<Node>, p: nat)
    requires 0 < p < |s| - 1 && Linked(s, {p - 1, p})
    requires s[p - 1].next == s[p + 1] && s[p + 1].prev == s[p - 1]
    ensures Chain(Cut(s, p))
  {
    var now := Cut(s, p);
    forall i | 0 <= i < |now| - 1 ensures now[i].next == now[i + 1] && now[i + 1].prev == now[i] {
      assert i < p - 1 ==> s[i].next == s[i + 1];
      assert i >= p ==> s[i + 1].next == s[i + 2];
    }
  }

  class List {
    const head: Node
    const tail: Node
    ghost var nodes: seq<Node>

    /** The elements between the sentinels. */
    ghost function Cells(): seq<Node>
      reads this
    {
      [head] + nodes + [tail]
    }

    ghost predicate Valid()
      reads this, Cells()
    {
      Chain(Cells())
    }

    /** list_init. */
    constructor ()
      ensures Valid() && nodes == [] && fresh(head) && fresh(tail)
    {
      head := new Node(0);
      tail := new Node(0);
      nodes := [];
      new;
      head.next := tail;
      tail.prev := head;
    }

    /** list_insert_before, in front of the cell at place p + 1. */
    method InsertBefore(anchor: Node, node: Node, ghost p: nat)
      requires Valid() && p <= |nodes| && Cells()[p + 1] == anchor && node !in Cells()
      modifies this, node, Cells()
      ensures Valid() && nodes == old(nodes)[..p] + [node] + old(nodes)[p..]
    {
      ghost var was := Cells();
      assert anchor.prev == was[p];
      node.prev := anchor.prev;
      node.next := anchor;
      anchor.prev.next := node;
      anchor.prev := node;
      nodes := nodes[..p] + [node] + nodes[p..];
      assert Cells() == Spliced(was, p + 1, node);
      assert forall i :: 0 <= i < |was| ==> was[i] in was;
      assert Linked(was, {p}) by {
        forall i | 0 <= i < |was| - 1 && i != p ensures was[i].next == was[i + 1] && was[i + 1].prev == was[i] {
          assert was[i] != was[p] && was[i + 1] != was[p + 1] && old(was[i].next == was[i + 1] && was[i + 1].prev == was[i]);
        }
      }
      hide Linked, Distinct;
      SpliceChain(was, p + 1, node);
    }

    /** list_insert_after, behind the cell at place p. */
    method InsertAfter(anchor: Node, node: Node, ghost p: nat)
      requires Valid() && p <= |nodes| && Cells()[p] == anchor && node !in Cells()
      modifies this, node, Cells()
      ensures Valid() && nodes == old(nodes)[..p] + [node] + old(nodes)[p..]
    {
      ghost var was := Cells();
      assert anchor.next == was[p + 1];
      node.prev := anchor;
      node.next := anchor.next;
      anchor.next.prev := node;
      anchor.next := node;
      nodes := nodes[..p] + [node] + nodes[p..];
      assert Cells() == Spliced(was, p + 1, node);
      assert forall i :: 0 <= i < |was| ==> was[i] in was;
      assert Linked(was, {p}) by {
        forall i | 0 <= i < |was| - 1 && i != p ensures was[i].next == was[i + 1] && was[i + 1].prev == was[i] {
          assert was[i] != was[p] && was[i + 1] != was[p + 1] && old(was[i].next == was[i + 1] && was[i + 1].prev == was[i]);
        }
      }
      hide Linked, Distinct;
      SpliceChain(was, p + 1, node);
    }

    /** list_push. */
    method Push(node: Node)
      requires Valid() && node !in Cells()
      modifies this, node, Cells()
      ensures Valid() && nodes == [node] + old(nodes)
    {
      InsertAfter(head, node, 0);
    }

    /** list_pushback. */
    method Pushback(node: Node)
      requires Valid() && node !in Cells()
      modifies this, node, Cells()
      ensures Valid() && nodes == old(nodes) + [node]
    {
      assert Cells()[|nodes| + 1] == tail;
      InsertBefore(tail, node, |nodes|);
    }

    /** list_remove of the element at place p. */
    method Remove(node: Node, ghost p: nat)
      requires Valid() && p < |nodes| && nodes[p] == node
      modifies this, Cells()
      ensures Valid() && nodes == old(nodes)[..p] + old(nodes)[p + 1..]
      ensures node.prev == null && node.next == null
    {
      ghost var was := Cells();
      assert was[p + 1] == node && node.prev == was[p] && node.next == was[p + 2];
      node.prev.next := node.next;
      node.next.prev := node.prev;
      node.next := null;
      node.prev := null;
      nodes := nodes[..p] + nodes[p + 1..];
      assert Cells() == Cut(was, p + 1);
      assert Linked(was, {p, p + 1}) by {
        forall i | 0 <= i < |was| - 1 && i != p && i != p + 1 ensures was[i].next == was[i + 1] && was[i + 1].prev == was[i] {
          assert was[i] != was[p] && was[i + 1] != was[p + 2] && old(was[i].next == was[i + 1] && was[i + 1].prev == was[i]);
        }
      }
      hide Linked, Distinct;
      CutChain(was, p + 1);
    }

    /** list_pop. */
    method Pop() returns (node: Node)
      requires Valid() && nodes != []
      modifies this, Cells()
      ensures Valid() && node == old(nodes)[0] && nodes == old(nodes)[1..] && node.prev == null && node.next == null
    {
      assert head == Cells()[0] && Cells()[1] == nodes[0];
      node := head.next;
      Remove(node, 0);
    }

    /** list_popback. */
    method Popback() returns (node: Node)
      requires Valid() && nodes != []
      modifies this, Cells()
      ensures Valid() && node == Last(old(nodes)) && nodes == Front(old(nodes)) && node.prev == null && node.next == null
    {
      assert tail == Cells()[|nodes| + 1] && Cells()[|nodes|] == nodes[|nodes| - 1];
      node := tail.prev;
      Remove(node, |nodes| - 1);
    }

    /** list_empty. */
    method Empty() returns (r: bool)
      requires Valid()
      ensures r == (nodes == [])
    {
      assert Cells()[0] == head && Cells()[1] == if nodes == [] then tail else nodes[0];
      assert nodes != [] ==> Cells()[|nodes| + 1] == tail;
      r := head.next == tail;
    }

    /** list_search. */
    method Search(node: Node) returns (r: bool)
      requires Valid()
      ensures r == (node in nodes)
    {
      ghost var i := 1;
      assert Cells()[0].next == Cells()[1];
      var next := head.next;
      while next != tail
        invariant 1 <= i <= |nodes| + 1 && next == Cells()[i] && node !in nodes[..i - 1]
        decreases |nodes| - i
      {
        assert i <= |nodes|;
        assert Cells()[i] == nodes[i - 1] && nodes[..i] == nodes[..i - 1] + [nodes[i - 1]];
        if next == node {
          return true;
        }
        assert Cells()[i].next == Cells()[i + 1];
        next := next.next;
        i := i + 1;
      }
      assert i == |nodes| + 1 && nodes[..i - 1] == nodes;
      r := false;
    }

    /** list_size. */
    method Size() returns (n: nat)
      requires Valid()
      ensures n == |nodes|
    {
      n := 0;
      assert Cells()[0].next == Cells()[1];
      var next := head.next;
      while next != tail
        invariant n <= |nodes| && next == Cells()[n + 1]
        decreases |nodes| - n
      {
        assert n < |nodes|;
        assert Cells()[n + 1].next == Cells()[n + 2];
        n := n + 1;
        next := next.next;
      }
      assert n == |nodes|;
    }

    /** list_insert_sort. */
    method InsertSort(node: Node)
      requires Valid() && node !in Cells()
      modifies this, node, Cells()
      ensures Valid() && nodes == InsertBy(old(nodes), node, NodeKey)
    {
      ghost var p := 0;
      assert Cells()[0].next == Cells()[1];
      assert nodes[..0] + InsertBy(nodes[0..], node, NodeKey) == InsertBy(nodes, node, NodeKey);
      var anchor := head.next;
      while anchor != tail && anchor.key <= node.key
        modifies {}
        invariant p <= |nodes| && anchor == Cells()[p + 1]
        invariant InsertBy(nodes, node, NodeKey) == nodes[..p] + InsertBy(nodes[p..], node, NodeKey)
        decreases |nodes| - p
      {
        assert p < |nodes|;
        assert anchor == nodes[p];
        assert Cells()[p + 1].next == Cells()[p + 2];
        InsertPasses(nodes, node, NodeKey, p);
        p := p + 1;
        anchor := anchor.next;
      }
      assert p < |nodes| ==> nodes[p] == anchor && anchor != tail;
      assert InsertBy(nodes[p..], node, NodeKey) == [node] + nodes[p..];
      assert nodes[..p] + ([node] + nodes[p..]) == nodes[..p] + [node] + nodes[p..];
      InsertBefore(anchor, node, p);
    }
  }
}
