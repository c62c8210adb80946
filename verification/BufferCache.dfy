/** The buffer cache updated in place, as buffer.c does it. */
module BufferCache {
  import opened Words
  import opened Lists
  import opened Buffer
  import opened BufferRun

  lemma AllocStep(c: Cache, bufs: seq<Buf>, free: seq<nat>, i: nat)
    requires bufs == c.bufs + Fresh(i) && free == Downward(|c.bufs|, i) + c.free
    ensures |bufs| == |c.bufs| + i
    ensures bufs + [Buf(NO_KEY, 0, false, false, [])] == c.bufs + Fresh(i + 1)
    ensures [|bufs|] + free == Downward(|c.bufs|, i + 1) + c.free
  {
    FreshIs(i);
    Together(c.bufs, Fresh(i), [Buf(NO_KEY, 0, false, false, [])]);
    Together([|bufs|], Downward(|c.bufs|, i), c.free);
  }

  lemma InvHash(c: Cache)
    requires Inv(c)
    ensures |c.hash| == HASH_COUNT
  {
  }

  class Descriptor {
    var bufs: seq<Buf>
    var free: seq<nat>
    var idle: seq<nat>
    var hash: seq<seq<nat>>
    const perPage: nat
    var disk: imap<Key, Data>      // the devices

    ghost function State(): Cache
      reads this
    {
      Cache(bufs, free, idle, hash, perPage, disk)
    }

    /** get_from_hash_table. */
    method GetFromHashTable(k: Key) returns (r: Option<nat>)
      requires |hash| == HASH_COUNT
      modifies this`idle
      ensures r == Locate(old(State()), k)
      ensures State() == if r.Some? then old(State()).(idle := Without(old(idle), r.value)) else old(State())
    {
      var list := hash[Hash(k)];
      r := None;
      var i := 0;
      while i < |list|
        invariant 0 <= i <= |list| && r == None && Search(bufs, list, k) == Search(bufs, list[i..], k)
        invariant State() == old(State())
      {
        if list[i] < |bufs| && bufs[list[i]].key == k {
          r := Some(list[i]);
          break;
        }
        assert list[i..][1..] == list[i + 1..];
        i := i + 1;
      }
      if r.None? {
        return;
      }
      if r.value in idle {
        idle := Without(idle, r.value);
      } else {
        WithoutAbsent(idle, r.value);
      }
    }

    /** hash_locate and hash_remove, for the key a buffer has now. */
    method HashLocate(b: nat)
      requires |hash| == HASH_COUNT && b < |bufs|
      modifies this`hash
      ensures hash == old(hash)[Hash(bufs[b].key) := [b] + old(hash)[Hash(bufs[b].key)]]
    {
      hash := hash[Hash(bufs[b].key) := [b] + hash[Hash(bufs[b].key)]];
    }

    method HashRemove(b: nat)
      requires |hash| == HASH_COUNT && b < |bufs|
      modifies this`hash
      ensures hash == old(hash)[Hash(bufs[b].key) := Without(old(hash)[Hash(bufs[b].key)], b)]
    {
      var idx := Hash(bufs[b].key);
      if b in hash[idx] {
        hash := hash[idx := Without(hash[idx], b)];
      } else {
        WithoutAbsent(hash[idx], b);
      }
    }

    /** buffer_alloc: one page, cut into buffers that each go to the front of the free list. */
    method BufferAlloc()
      modifies this`bufs, this`free
      ensures State() == Alloc(old(State()))
    {
      var left, i := perPage, 0;
      ghost var start := State();
      assert bufs == start.bufs + Fresh(0) && free == Downward(|start.bufs|, 0) + start.free;
      while left > 0
        invariant left + i == perPage && 0 <= left
        invariant bufs == start.bufs + Fresh(i) && free == Downward(|start.bufs|, i) + start.free
        invariant State() == start.(bufs := bufs, free := free)
      {
        AllocStep(start, bufs, free, i);
        free := [|bufs|] + free;
        bufs := bufs + [Buf(NO_KEY, 0, false, false, [])];
        left, i := left - 1, i + 1;
      }
    }

    /** get_free_buffer, when it need not wait; then getblk's part for a new block. */
    method GetFreeBuffer() returns (b: nat)
      requires |hash| == HASH_COUNT && Available(State()) && Victim(State()) < |Refilled(State()).bufs|
      modifies this
      ensures b == Victim(old(State())) && |hash| == HASH_COUNT && b < |bufs|
      ensures var r := Refilled(old(State()));
        State() == (if r.free != [] then r.(free := Front(r.free)) else r.(idle := Front(r.idle)))
          .(bufs := r.bufs[b := r.bufs[b].(valid := false)],
            hash := r.hash[Hash(r.bufs[b].key) := Without(r.hash[Hash(r.bufs[b].key)], b)])
    {
      if |bufs| < MAX_BUF_COUNT && free == [] {
        BufferAlloc();
      }
      if free != [] {
        b := Last(free);
        free := Front(free);
      } else {
        b := Last(idle);
        idle := Front(idle);
      }
      HashRemove(b);
      bufs := bufs[b := bufs[b].(valid := false)];
    }

    /** getblk. */
    method GetBlock(k: Key) returns (b: nat)
      requires Inv(State()) && (Locate(State(), k).Some? || Available(State()))
      modifies this
      ensures (State(), b) == Getblk(old(State()), k)
    {
      hide Inv, Search, Hash, ListsOk, Without;
      InvHash(State());
      ghost var start := State();
      var found := GetFromHashTable(k);
      if found.Some? {
        b := found.value;
        LocateFinds(start, k);
        bufs := bufs[b := bufs[b].(count := bufs[b].count + 1)];
        assert State() == Hit(start, b);
        return;
      }
      RefilledKeeps(start);
      b := GetFreeBuffer();
      bufs := bufs[b := bufs[b].(key := k, count := 1)];
      HashLocate(b);
      ghost var r := Refilled(start);
      assert bufs == r.bufs[b := r.bufs[b].(key := k, count := 1, valid := false)];
      assert State() == Miss(start, k);
    }

    /** getblk from where a task that waited in get_free_buffer goes on. */
    method GetBlockWoken(k: Key) returns (b: nat)
      requires |hash| == HASH_COUNT && idle != [] && Last(idle) < |bufs|
      modifies this
      ensures b == Last(old(idle)) && State() == Woken(old(State()), k)
    {
      hide Hash, Without;
      b := Last(idle);
      idle := Front(idle);
      HashRemove(b);
      bufs := bufs[b := bufs[b].(valid := false)];
      bufs := bufs[b := bufs[b].(key := k, count := 1)];
      HashLocate(b);
    }

    /** bwrite, on a device that does not fail. */
    method WriteBuffer(b: nat)
      requires b < |bufs|
      modifies this
      ensures State() == Bwrite(old(State()), b)
    {
      if !bufs[b].dirty {
        return;
      }
      disk := disk[bufs[b].key := bufs[b].data];
      bufs := bufs[b := bufs[b].(dirty := false)];
      bufs := bufs[b := bufs[b].(valid := true)];
    }

    /** brelse. */
    method Release_(b: nat)
      requires b < |bufs|
      modifies this
      ensures State() == Brelse(old(State()), b)
    {
      WriteBuffer(b);
      bufs := bufs[b := bufs[b].(count := bufs[b].count - 1)];
      if bufs[b].count > 0 {
        return;
      }
      idle := [b] + idle;
    }

    /** bread. */
    method ReadBlock(k: Key, ok: bool) returns (r: Option<nat>)
      requires Inv(State()) && (Locate(State(), k).Some? || Available(State()))
      modifies this
      ensures (State(), r) == Bread(old(State()), k, ok)
    {
      hide Inv, Getblk, Locate, Available;
      GetblkGets(State(), k);
      var b := GetBlock(k);
      ghost var got := State();
      if bufs[b].valid {
        return Some(b);
      }
      if !ok {
        Release_(b);
        return None;
      }
      var data := if k in disk then disk[k] else [];
      bufs := bufs[b := bufs[b].(data := data)];
      bufs := bufs[b := bufs[b].(dirty := false)];
      bufs := bufs[b := bufs[b].(valid := true)];
      assert bufs == got.bufs[b := got.bufs[b].(dirty := false, valid := true, data := OnDisk(got, k))];
      r := Some(b);
    }
  }
}
