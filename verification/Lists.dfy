/** Linked lists as sequences (src/lib/list.c): what the modules share. */
module Lists {
  predicate NoDup<T(==)>(l: seq<T>) {
    forall i, j :: 0 <= i < j < |l| ==> l[i] != l[j]
  }

  /** list_remove. */
  function Without<T(==,!new)>(l: seq<T>, b: T): (r: seq<T>)
    ensures forall x :: x in r <==> x in l && x != b
    ensures NoDup(l) ==> NoDup(r)
  {
    if l == [] then []
    else
      var r := Without(l[1..], b);
      assert l == [l[0]] + l[1..];
      assert NoDup(l) ==> NoDup(l[1..]) && l[0] !in l[1..];
      if l[0] == b then r else [l[0]] + r
  }

  /** Removing what is not there changes nothing. */
  lemma {:induction false} WithoutAbsent<T(!new)>(l: seq<T>, b: T)
    requires b !in l
    ensures Without(l, b) == l
  {
    if l != [] {
      assert l[0] in l && l == [l[0]] + l[1..];
      WithoutAbsent(l[1..], b);
    }
  }

  function Last<T>(l: seq<T>): T
    requires l != []
  {
    l[|l| - 1]
  }

  function Front<T>(l: seq<T>): seq<T>
    requires l != []
  {
    l[..|l| - 1]
  }

  lemma FrontHolds<T(!new)>(l: seq<T>)
    requires NoDup(l) && l != []
    ensures NoDup(Front(l)) && forall x :: x in Front(l) <==> x in l && x != Last(l)
  {
    assert l == Front(l) + [Last(l)];
  }

  lemma Together<T>(a: seq<T>, b: seq<T>, c: seq<T>)
    ensures a + b + c == a + (b + c)
  {
  }

  // ---------------------------------------------------------------- in the order of arrival

  /** The elements by the time they came, the last one first. */
  predicate NewestFirst(l: seq<nat>, came: map<nat, nat>) {
    (forall x :: x in l ==> x in came) && forall i, j :: 0 <= i < j < |l| ==> came[l[i]] > came[l[j]]
  }

  lemma NewComes(l: seq<nat>, came: map<nat, nat>, b: nat, now: nat)
    requires NewestFirst(l, came) && b !in l && forall x :: x in l ==> came[x] < now
    ensures NewestFirst([b] + l, came[b := now])
  {
  }

  lemma {:induction false} OneGoes(l: seq<nat>, came: map<nat, nat>, b: nat)
    requires NewestFirst(l, came)
    ensures NewestFirst(Without(l, b), came)
  {
    if l != [] {
      assert NewestFirst(l[1..], came);
      OneGoes(l[1..], came, b);
      forall x | x in l[1..] ensures came[l[0]] > came[x] {
        var i :| 0 <= i < |l[1..]| && l[1..][i] == x;
        assert l[i + 1] == x;
      }
    }
  }

  lemma LastGoes(l: seq<nat>, came: map<nat, nat>)
    requires NewestFirst(l, came) && l != []
    ensures NewestFirst(Front(l), came) && forall x :: x in l ==> came[Last(l)] <= came[x]
  {
    forall x | x in l ensures came[Last(l)] <= came[x] {
      var i :| 0 <= i < |l| && l[i] == x;
    }
  }

  // ---------------------------------------------------------------- list_insert_sort

  /** Before the first element with a greater key, at the end if there is none. */
  function InsertBy<T>(l: seq<T>, x: T, key: T -> int): (r: seq<T>)
    ensures |r| == |l| + 1
  {
    if l == [] then [x]
    else if key(l[0]) > key(x) then [x] + l
    else [l[0]] + InsertBy(l[1..], x, key)
  }

  predicate SortedBy<T>(l: seq<T>, key: T -> int) {
    forall i, j :: 0 <= i < j < |l| ==> key(l[i]) <= key(l[j])
  }

  lemma {:induction false} InsertByHolds<T>(l: seq<T>, x: T, key: T -> int)
    ensures forall y :: y in InsertBy(l, x, key) <==> y == x || y in l
    ensures multiset(InsertBy(l, x, key)) == multiset(l) + multiset{x}
  {
    if l != [] && key(l[0]) <= key(x) {
      InsertByHolds(l[1..], x, key);
      assert l == [l[0]] + l[1..];
    }
  }

  /** Where the new element is; the others stay in their order around it. */
  lemma {:induction false} InsertByAt<T>(l: seq<T>, x: T, key: T -> int) returns (p: nat)
    ensures p <= |l| && InsertBy(l, x, key) == l[..p] + [x] + l[p..]
    ensures forall i :: 0 <= i < p ==> key(l[i]) <= key(x)
    ensures p < |l| ==> key(l[p]) > key(x)
  {
    if l == [] || key(l[0]) > key(x) {
      p := 0;
    } else {
      var q := InsertByAt(l[1..], x, key);
      p := q + 1;
      assert l[..p] == [l[0]] + l[1..][..q] && l[p..] == l[1..][q..];
      forall i | 0 <= i < p ensures key(l[i]) <= key(x) {
        if i > 0 {
          assert l[i] == l[1..][i - 1];
        }
      }
    }
  }

  /** A sorted list stays sorted. */
  lemma InsertBySorts<T>(l: seq<T>, x: T, key: T -> int)
    requires SortedBy(l, key)
    ensures SortedBy(InsertBy(l, x, key), key)
  {
    var p := InsertByAt(l, x, key);
    var r := l[..p] + [x] + l[p..];
    forall i, j | 0 <= i < j < |r| ensures key(r[i]) <= key(r[j]) {
      assert r[i] == if i < p then l[i] else if i == p then x else l[i - 1];
      assert r[j] == if j < p then l[j] else if j == p then x else l[j - 1];
      if i <= p < j {
        assert key(l[p]) <= key(l[j - 1]) || p == j - 1;
      }
    }
  }

  /** Passing one more element with no greater key. */
  lemma InsertPasses<T>(list: seq<T>, node: T, key: T -> int, i: nat)
    requires i < |list| && key(list[i]) <= key(node)
    ensures list[..i] + InsertBy(list[i..], node, key) == list[..i + 1] + InsertBy(list[i + 1..], node, key)
  {
    assert list[i..][1..] == list[i + 1..];
    assert list[..i + 1] == list[..i] + [list[i]];
  }

  /** list_insert_sort: walk to the first element with a greater key. */
  method ListInsertSort<T>(list: seq<T>, node: T, key: T -> int) returns (r: seq<T>)
    ensures r == InsertBy(list, node, key)
  {
    var anchor := 0;
    assert list[..0] + InsertBy(list[0..], node, key) == InsertBy(list, node, key);
    while anchor < |list| && key(list[anchor]) <= key(node)
      invariant 0 <= anchor <= |list|
      invariant InsertBy(list, node, key) == list[..anchor] + InsertBy(list[anchor..], node, key)
    {
      InsertPasses(list, node, key, anchor);
      anchor := anchor + 1;
    }
    r := list[..anchor] + ([node] + list[anchor..]);
  }
}
