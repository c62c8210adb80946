/** The block buffer cache (src/kernel/buffer.c), for one block size: hash chains, a free list
    and an idle list over buffers that are known by their number. */
module Buffer {
  import opened Words
  import opened Lists

  const HASH_COUNT := 31
  const MAX_BUF_COUNT := 4096

  type Data = seq<u8>

  datatype Key = Key(dev: bv32, block: bv32)

  /** buffer_t. */
  datatype Buf = Buf(key: Key, count: int, dirty: bool, valid: bool, data: Data)

  /** bdesc_t with its buffers, and what the devices hold. A page holds four buffers of 1024
      bytes, two of 2048 or one of 4096. */
  datatype Cache = Cache(
    bufs: seq<Buf>, free: seq<nat>, idle: seq<nat>, hash: seq<seq<nat>>, perPage: nat, disk: imap<Key, Data>)

  const NO_KEY := Key(0xFFFF_FFFF, 0)

  function Hash(k: Key): (h: nat)
    ensures h < HASH_COUNT
  {
    (k.dev ^ k.block) as int % HASH_COUNT
  }

  // ---------------------------------------------------------------- the hash table

  /** The loop of get_from_hash_table over one chain. */
  function Search(bufs: seq<Buf>, chain: seq<nat>, k: Key): Option<nat> {
    if chain == [] then None
    else if chain[0] < |bufs| && bufs[chain[0]].key == k then Some(chain[0])
    else Search(bufs, chain[1..], k)
  }

  function Locate(c: Cache, k: Key): Option<nat> {
    if |c.hash| == HASH_COUNT then Search(c.bufs, c.hash[Hash(k)], k) else None
  }

  // ---------------------------------------------------------------- getblk

  /** buffer_alloc: a page of buffers, each pushed to the front of the free list. */
  function Fresh(n: nat): seq<Buf> {
    if n == 0 then [] else Fresh(n - 1) + [Buf(NO_KEY, 0, false, false, [])]
  }

  function Downward(from: nat, n: nat): seq<nat> {
    if n == 0 then [] else [from + n - 1] + Downward(from, n - 1)
  }

  function Alloc(c: Cache): Cache {
    c.(bufs := c.bufs + Fresh(c.perPage), free := Downward(|c.bufs|, c.perPage) + c.free)
  }

  /** The first part of get_free_buffer. */
  function Refilled(c: Cache): Cache {
    if |c.bufs| < MAX_BUF_COUNT && c.free == [] then Alloc(c) else c
  }

  /** get_free_buffer never has to wait: there is a buffer to hand out. */
  predicate Available(c: Cache) {
    var r := Refilled(c);
    r.free != [] || r.idle != []
  }

  /** The buffer get_free_buffer takes. */
  function Victim(c: Cache): nat
    requires Available(c)
  {
    var r := Refilled(c);
    if r.free != [] then Last(r.free) else Last(r.idle)
  }

  function SetBuf(c: Cache, b: nat, f: Buf): Cache {
    if b < |c.bufs| then c.(bufs := c.bufs[b := f]) else c
  }

  function BufAt(c: Cache, b: nat): Buf {
    if b < |c.bufs| then c.bufs[b] else Buf(NO_KEY, 0, false, false, [])
  }

  /** A hit: the buffer leaves the idle list if it was there. */
  function Hit(c: Cache, b: nat): Cache {
    SetBuf(c, b, BufAt(c, b).(count := BufAt(c, b).count + 1)).(idle := Without(c.idle, b))
  }

  /** A miss: the buffer taken is hashed anew, for block k. */
  function Miss(c: Cache, k: Key): Cache
    requires Available(c)
  {
    var r := Refilled(c);
    Renamed(if r.free != [] then r.(free := Front(r.free)) else r.(idle := Front(r.idle)), Victim(c), k)
  }

  /** A miss of a task that had to wait: it takes what is idle now, for the block it looked up
      before it waited. */
  function Woken(c: Cache, k: Key): Cache
    requires c.idle != []
  {
    Renamed(c.(idle := Front(c.idle)), Last(c.idle), k)
  }

  function Renamed(c: Cache, b: nat, k: Key): Cache {
    Rehash(SetBuf(c, b, BufAt(c, b).(key := k, count := 1, valid := false)), b, BufAt(c, b).key, k)
  }

  /** hash_remove under the old key, hash_locate under the new one. */
  function Rehash(c: Cache, b: nat, old_: Key, k: Key): Cache {
    if |c.hash| != HASH_COUNT then c
    else
      var out := c.hash[Hash(old_) := Without(c.hash[Hash(old_)], b)];
      c.(hash := out[Hash(k) := [b] + out[Hash(k)]])
  }

  function Getblk(c: Cache, k: Key): (Cache, nat)
    requires Locate(c, k).Some? || Available(c)
  {
    var b := Locate(c, k);
    if b.Some? then (Hit(c, b.value), b.value) else (Miss(c, k), Victim(c))
  }

  // ---------------------------------------------------------------- bread, bwrite, brelse

  function OnDisk(c: Cache, k: Key): Data {
    if k in c.disk then c.disk[k] else []
  }

  /** bwrite, on a device that does not fail. */
  function Bwrite(c: Cache, b: nat): Cache {
    var f := BufAt(c, b);
    if !f.dirty then c
    else SetBuf(c, b, f.(dirty := false, valid := true)).(disk := c.disk[f.key := f.data])
  }

  function Brelse(c: Cache, b: nat): Cache {
    var w := Bwrite(c, b);
    var f := BufAt(w, b).(count := BufAt(w, b).count - 1);
    var r := SetBuf(w, b, f);
    if f.count > 0 then r else r.(idle := [b] + r.idle)
  }

  /** bread with buffer b in hand; `ok` tells whether the device can be read, if it has to be. */
  function ReadInto(g: Cache, b: nat, k: Key, ok: bool): (Cache, Option<nat>) {
    if BufAt(g, b).valid then (g, Some(b))
    else if ok then (SetBuf(g, b, BufAt(g, b).(dirty := false, valid := true, data := OnDisk(g, k))), Some(b))
    else (Brelse(g, b), None)
  }

  /** bread. */
  function Bread(c: Cache, k: Key, ok: bool): (Cache, Option<nat>)
    requires Locate(c, k).Some? || Available(c)
  {
    var (g, b) := Getblk(c, k);
    ReadInto(g, b, k, ok)
  }

  /** bread of a task that had to wait, from where it is woken. */
  function Resume(c: Cache, k: Key, ok: bool): (Cache, Option<nat>)
    requires c.idle != []
  {
    ReadInto(Woken(c, k), Last(c.idle), k, ok)
  }

  /** A holder writes to the buffer and marks it dirty. */
  function Modify(c: Cache, b: nat, data: Data): Cache {
    SetBuf(c, b, BufAt(c, b).(data := data, dirty := true))
  }

  // ---------------------------------------------------------------- the invariant

  predicate InChains(c: Cache, b: nat) {
    exists h :: 0 <= h < |c.hash| && b in c.hash[h]
  }

  /** Each buffer is in exactly one of: free, idle, held. Idle buffers are clean, and a valid
      clean buffer says what the device says. */
  ghost predicate BufOk(c: Cache, b: nat) {
    b < |c.bufs| ==>
      var f := c.bufs[b];
      f.count >= 0 && !(b in c.free && b in c.idle) && (f.count == 0 <==> b in c.free || b in c.idle) &&
      (f.count == 0 ==> !f.dirty) &&
      (b in c.free ==> !InChains(c, b)) &&
      (b !in c.free ==> |c.hash| == HASH_COUNT && b in c.hash[Hash(f.key)]) &&
      (b !in c.free && f.valid && !f.dirty ==> f.data == OnDisk(c, f.key))
  }

  ghost predicate ChainOk(c: Cache, h: nat) {
    h < |c.hash| ==>
      NoDup(c.hash[h]) && forall b :: b in c.hash[h] ==> b < |c.bufs| && Hash(c.bufs[b].key) == h
  }

  /** At most one buffer for a block. */
  ghost predicate OneFor(c: Cache, a: nat, b: nat) {
    a < |c.bufs| && b < |c.bufs| && a !in c.free && b !in c.free && c.bufs[a].key == c.bufs[b].key ==> a == b
  }

  ghost predicate ListsOk(c: Cache) {
    NoDup(c.free) && NoDup(c.idle) && (forall b :: b in c.free || b in c.idle ==> b < |c.bufs|)
  }

  ghost predicate Inv(c: Cache) {
    |c.hash| == HASH_COUNT && (c.perPage == 4 || c.perPage == 2 || c.perPage == 1) &&
    |c.bufs| <= MAX_BUF_COUNT && |c.bufs| % c.perPage == 0 && ListsOk(c) &&
    (forall b :: BufOk(c, b)) && (forall h :: ChainOk(c, h)) && (forall a, b :: OneFor(c, a, b))
  }
}
