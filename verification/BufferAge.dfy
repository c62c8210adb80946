/** Which buffer a miss takes: a free one if there is one, and else the one given back longest ago. */
module BufferAge {
  import opened Words
  import opened Lists
  import opened Buffer
  import opened BufferRun

  /** The buffer that an operation gives back for good, so that nobody holds it. */
  function GivenBack(m: Machine, op: Op): Option<nat>
    requires Enabled(m, op)
  {
    var c := m.cache;
    match op
    case Read(k, ok) => if Bread(c, k, ok).1.None? then Some(Getblk(c, k).1) else None
    case Resumes(_, ok) => if ok then None else Some(Last(c.idle))
    case Release(b) => if c.bufs[b].count == 1 then Some(b) else None
    case _ => None
  }

  /** When each buffer was last given back. */
  ghost function Since(states: seq<Machine>, ops: seq<Op>, n: nat): map<nat, nat>
    requires n <= |ops| < |states| && forall i :: 0 <= i < n ==> Enabled(states[i], ops[i])
  {
    if n == 0 then map[]
    else
      var b := GivenBack(states[n - 1], ops[n - 1]);
      if b.Some? then Since(states, ops, n - 1)[b.value := n - 1] else Since(states, ops, n - 1)
  }

  lemma {:induction false} SincePast(states: seq<Machine>, ops: seq<Op>, n: nat)
    requires n <= |ops| < |states| && forall i :: 0 <= i < n ==> Enabled(states[i], ops[i])
    ensures forall x :: x in Since(states, ops, n) ==> Since(states, ops, n)[x] < n
  {
    if n > 0 { SincePast(states, ops, n - 1); }
  }

  /** Idle buffers that leave the list, and one that joins it, keep its order. */
  lemma GotKeeps(c: Cache, k: Key, came: map<nat, nat>)
    requires Inv(c) && (Locate(c, k).Some? || Available(c)) && NewestFirst(c.idle, came)
    ensures NewestFirst(Getblk(c, k).0.idle, came) && Getblk(c, k).1 !in Getblk(c, k).0.idle
    ensures forall x :: x in Getblk(c, k).0.idle ==> x in c.idle
  {
    LocateFinds(c, k);
    if Locate(c, k).Some? {
      OneGoes(c.idle, came, Locate(c, k).value);
    } else {
      MissTakes(c, k);
      RefilledCounts(c);
      if Refilled(c).free == [] { LastGoes(c.idle, came); }
    }
  }

  lemma ReadKeeps(c: Cache, k: Key, ok: bool, a: PlainDisk, came: map<nat, nat>, now: nat)
    requires Refines(c, a) && (Locate(c, k).Some? || Available(c)) && NewestFirst(c.idle, came)
    requires forall x :: x in c.idle ==> came[x] < now
    ensures var (c', r) := Bread(c, k, ok); NewestFirst(c'.idle, if r.None? then came[Getblk(c, k).1 := now] else came)
  {
    var (g, b) := Getblk(c, k);
    GotKeeps(c, k, came);
    BreadRefines(c, k, ok, a);
    if !BufAt(g, b).valid { FilledUse(c, k, a); }
    NewComes(g.idle, came, b, now);
    hide Inv, Refines, Getblk;
  }

  lemma ResumeKeeps(c: Cache, k: Key, ok: bool, came: map<nat, nat>, now: nat)
    requires Inv(c) && c.idle != [] && NewestFirst(c.idle, came) && forall x :: x in c.idle ==> came[x] < now
    ensures NewestFirst(Resume(c, k, ok).0.idle, if ok then came else came[Last(c.idle) := now])
  {
    WokenTakes(c, k);
    LastGoes(c.idle, came);
    NewComes(Front(c.idle), came, Last(c.idle), now);
  }

  lemma ReleaseKeeps(c: Cache, b: nat, came: map<nat, nat>, now: nat)
    requires Inv(c) && b < |c.bufs| && c.bufs[b].count > 0 && NewestFirst(c.idle, came) && forall x :: x in c.idle ==> came[x] < now
    ensures NewestFirst(Brelse(c, b).idle, if c.bufs[b].count == 1 then came[b := now] else came)
  {
    assert BufOk(c, b);
    BwriteTouches(c, b);
    NewComes(c.idle, came, b, now);
  }

  /** In every run the idle buffers stand in the order in which they were given back. */
  lemma {:induction false} RunKeepsOrder(states: seq<Machine>, plain: seq<PlainDisk>, ops: seq<Op>, n: nat)
    requires Run(states, plain, ops) && Refines(states[0].cache, plain[0]) && states[0].cache.idle == [] && n <= |ops|
    requires forall i :: 0 <= i < n ==> Safe(states[i], ops[i])
    ensures NewestFirst(states[n].cache.idle, Since(states, ops, n))
  {
    hide Refines, Inv, Bread, Resume, Brelse, Getblk, NewestFirst;
    if n > 0 {
      RunKeepsOrder(states, plain, ops, n - 1);
      RunRefines(states, plain, ops, n - 1);
      var m, op, came := states[n - 1], ops[n - 1], Since(states, ops, n - 1);
      SincePast(states, ops, n - 1);
      StepKeepsOrder(m, op, plain[n - 1], came, n - 1);
    } else {
      EmptyInOrder(states[0].cache.idle);
    }
  }

  lemma EmptyInOrder(l: seq<nat>)
    requires l == []
    ensures NewestFirst(l, map[])
  {
  }

  lemma StepKeepsOrder(m: Machine, op: Op, a: PlainDisk, came: map<nat, nat>, now: nat)
    requires Refines(m.cache, a) && Enabled(m, op) && NewestFirst(m.cache.idle, came) && forall x :: x in came ==> came[x] < now
    ensures var b := GivenBack(m, op); NewestFirst(Do(m, op).cache.idle, if b.Some? then came[b.value := now] else came)
  {
    hide Bread, Resume, Brelse, Getblk, Inv, UseOk, Available, Locate;
    match op
    case Read(k, ok) => ReadKeeps(m.cache, k, ok, a, came, now);
    case Waits(_) =>
    case Resumes(i, ok) => ResumeKeeps(m.cache, m.waiting[i], ok, came, now);
    case Write(_, _) =>
    case Flush(b) => BwriteTouches(m.cache, b);
    case Release(b) => ReleaseKeeps(m.cache, b, came, now);
  }

  predicate OldestOf(l: seq<nat>, since: map<nat, nat>, b: nat) {
    b in l && b in since && forall x :: x in l ==> x in since && since[b] <= since[x]
  }

  /** A miss takes a free buffer as long as there is one, or a page for more below the limit of
      4096; else it takes the idle buffer that was given back longest ago, and so what was used
      since stays in the cache. */
  lemma OldestIsTaken(states: seq<Machine>, plain: seq<PlainDisk>, ops: seq<Op>, n: nat, k: Key)
    requires Run(states, plain, ops) && Refines(states[0].cache, plain[0]) && states[0].cache.idle == [] && n <= |ops|
    requires forall i :: 0 <= i < n ==> Safe(states[i], ops[i])
    requires Locate(states[n].cache, k).None? && Available(states[n].cache)
    ensures var c, since := states[n].cache, Since(states, ops, n); var b := Getblk(c, k).1;
      if c.free != [] || |c.bufs| < 4096 then b !in c.idle
      else OldestOf(c.idle, since, b)
  {
    var c := states[n].cache;
    RunKeepsOrder(states, plain, ops, n);
    RunRefines(states, plain, ops, n);
    RefilledKeeps(c);
    RefilledCounts(c);
    hide Inv, Refines, Run, Do, Enabled, Safe, Since, UseOk;
    if c.free != [] || |c.bufs| < 4096 {
      FreeIsTaken(c);
    } else {
      LastGoes(c.idle, Since(states, ops, n));
    }
  }

  lemma FreeIsTaken(c: Cache)
    requires Inv(c) && Available(c) && (c.free != [] || |c.bufs| < MAX_BUF_COUNT)
    ensures Victim(c) !in c.idle
  {
    RefilledKeeps(c);
    RefilledCounts(c);
    if c.free == [] { AllocKeeps(c); }
    var r := Refilled(c);
    assert Last(r.free) in r.free && BufOk(r, Last(r.free));
  }
}
