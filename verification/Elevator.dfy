/** The request queue of a block device (src/kernel/device.c): the order in which requests are
    served, and who wakes whom. */
module Elevator {
  import opened Words
  import opened Lists

  /** request_t; `recorded` tells that req->task is set. */
  datatype Req = Req(task: nat, idx: u32, recorded: bool)

  /** list_insert_sort reads the sector as a C int. */
  function Key(r: Req): int { Signed(r.idx) }

  /** device_t; `up` is DIRECT_UP. */
  datatype Device = Device(queue: seq<Req>, up: bool)

  // ---------------------------------------------------------------- request_nextreq

  /** The direction after the request at position c is done. */
  function Turned(d: Device, c: nat): bool {
    if d.up && c + 1 == |d.queue| then false
    else if !d.up && c == 0 then true
    else d.up
  }

  /** The position of the next request, in the queue that still has this one. */
  function NextAt(d: Device, c: nat): int {
    if Turned(d, c) then c + 1 else c - 1
  }

  predicate HasNext(d: Device, c: nat) {
    0 <= NextAt(d, c) < |d.queue|
  }

  function Removed(d: Device, c: nat): Device
    requires c < |d.queue|
  {
    Device(d.queue[..c] + d.queue[c + 1..], Turned(d, c))
  }

  /** The same request in the queue without this one. */
  function NextIn(d: Device, c: nat): nat
    requires HasNext(d, c) && c < |d.queue|
  {
    if NextAt(d, c) > c then c else c - 1
  }

  /** There is a next request exactly when another one remains. */
  lemma NextExists(d: Device, c: nat)
    requires c < |d.queue|
    ensures HasNext(d, c) <==> |d.queue| > 1
    ensures HasNext(d, c) ==> NextAt(d, c) != c && Removed(d, c).queue[NextIn(d, c)] == d.queue[NextAt(d, c)]
  {
  }

  // ---------------------------------------------------------------- the order

  /** The requests in the order in which they are served, if none arrives meanwhile. */
  function Served(d: Device, c: nat): seq<Req>
    requires c < |d.queue|
    decreases |d.queue|
  {
    [d.queue[c]] + if HasNext(d, c) then Served(Removed(d, c), NextIn(d, c)) else []
  }

  function Reverse<T>(s: seq<T>): (r: seq<T>)
    ensures |r| == |s| && forall i :: 0 <= i < |s| ==> r[i] == s[|s| - 1 - i]
  {
    if s == [] then [] else Reverse(s[1..]) + [s[0]]
  }

  lemma ReverseLast<T>(s: seq<T>, n: nat)
    requires n < |s|
    ensures Reverse(s[..n + 1]) == [s[n]] + Reverse(s[..n])
  {
  }

  lemma Slices(q: seq<Req>, c: nat)
    requires c < |q|
    ensures var r := q[..c] + q[c + 1..]; r[..c] == q[..c] && r[c..] == q[c + 1..]
    ensures q[c..] == [q[c]] + q[c + 1..]
  {
  }

  /** What is served from position c on. */
  function Sweeps(q: seq<Req>, c: nat, up: bool): seq<Req>
    requires c < |q|
  {
    if up then q[c..] + Reverse(q[..c]) else Reverse(q[..c + 1]) + q[c + 1..]
  }

  /** One step of a sweep: going on, or turning at the end. */
  lemma GoOn(q: seq<Req>, c: nat)
    requires c < |q|
    ensures c + 1 < |q| ==> Sweeps(q, c, true) == [q[c]] + Sweeps(q[..c] + q[c + 1..], c, true)
    ensures c > 0 ==> Sweeps(q, c, false) == [q[c]] + Sweeps(q[..c] + q[c + 1..], c - 1, false)
  {
    Slices(q, c);
    ReverseLast(q, c);
    hide Reverse;
    Together([q[c]], q[c + 1..], Reverse(q[..c]));
    Together([q[c]], Reverse(q[..c]), q[c + 1..]);
  }

  lemma Turns(q: seq<Req>)
    requires |q| > 1
    ensures Sweeps(q, |q| - 1, true) == [q[|q| - 1]] + Sweeps(q[..|q| - 1], |q| - 2, false)
    ensures Sweeps(q, 0, false) == [q[0]] + Sweeps(q[1..], 0, true)
  {
    var n := |q| - 1;
    assert q[n..] == [q[n]] && q[..n][..n - 1 + 1] == q[..n] && q[..n][n..] == [];
    ReverseLast(q, 0);
    assert Reverse(q[..0]) == [] && Reverse(q[1..][..0]) == [];
    hide Reverse;
  }

  lemma SweepStep(d: Device, c: nat)
    requires c < |d.queue| && HasNext(d, c)
    ensures Sweeps(d.queue, c, d.up) == [d.queue[c]] + Sweeps(Removed(d, c).queue, NextIn(d, c), Removed(d, c).up)
  {
    var q := d.queue;
    hide Sweeps;
    if Turned(d, c) == d.up {
      GoOn(q, c);
    } else {
      Turns(q);
      assert d.up ==> q[..c] + q[c + 1..] == q[..c];
      assert !d.up ==> q[..c] + q[c + 1..] == q[1..];
    }
  }

  /** All of it on the way up and then all the rest on the way down, or the other way round:
      every request once, with at most one reversal. */
  lemma {:induction false} ServedIs(d: Device, c: nat)
    requires c < |d.queue|
    ensures Served(d, c) == Sweeps(d.queue, c, d.up)
    decreases |d.queue|
  {
    NextExists(d, c);
    if HasNext(d, c) {
      SweepStep(d, c);
      ServedIs(Removed(d, c), NextIn(d, c));
    } else {
      assert d.queue == [d.queue[0]];
    }
  }

  predicate Rising(s: seq<Req>) { SortedBy(s, Key) }

  predicate Falling(s: seq<Req>) {
    forall i, j :: 0 <= i < j < |s| ==> Key(s[i]) >= Key(s[j])
  }

  lemma ReverseFalls(s: seq<Req>)
    requires SortedBy(s, Key)
    ensures Falling(Reverse(s))
  {
    forall i, j | 0 <= i < j < |s| ensures Key(Reverse(s)[i]) >= Key(Reverse(s)[j]) {
      assert Key(s[|s| - 1 - j]) <= Key(s[|s| - 1 - i]);
    }
  }

  lemma SliceRises(s: seq<Req>, a: nat, b: nat)
    requires SortedBy(s, Key) && a <= b <= |s|
    ensures Rising(s[a..b])
  {
  }

  predicate BySector(q: seq<Req>) {
    forall i, j :: 0 <= i < j < |q| ==> q[i].idx <= q[j].idx
  }

  /** Requests for sectors on both sides of 2^31. */
  predicate Astride(q: seq<Req>) {
    exists i, j :: 0 <= i < |q| && 0 <= j < |q| && q[i].idx < 0x8000_0000 <= q[j].idx
  }

  /** The queue is in the order of the sectors exactly when none of them lies beyond 2^31, or
      all do. */
  lemma QueueIsBySector(q: seq<Req>)
    requires SortedBy(q, Key)
    ensures BySector(q) <==> !Astride(q)
  {
    if i, j :| 0 <= i < |q| && 0 <= j < |q| && q[i].idx < 0x8000_0000 <= q[j].idx {
      assert Key(q[j]) < Key(q[i]);
      assert j < i;
    } else {
      forall i, j | 0 <= i < j < |q| ensures q[i].idx <= q[j].idx {
        assert Key(q[i]) <= Key(q[j]);
      }
    }
  }

  /** The number of requests served before the turn. */
  function Turn(d: Device, c: nat): nat
    requires c < |d.queue|
  {
    if d.up then |d.queue| - c else c + 1
  }

  /** n requests take n completions, in two sweeps: to the end of the current direction, and
      back. */
  lemma TwoSweeps(d: Device, c: nat)
    requires c < |d.queue| && SortedBy(d.queue, Key)
    ensures |Served(d, c)| == |d.queue| && multiset(Served(d, c)) == multiset(d.queue)
    ensures Turn(d, c) <= |d.queue|
    ensures if d.up then Rising(Served(d, c)[..Turn(d, c)]) && Falling(Served(d, c)[Turn(d, c)..])
            else Falling(Served(d, c)[..Turn(d, c)]) && Rising(Served(d, c)[Turn(d, c)..])
  {
    ServedIs(d, c);
    var q := d.queue;
    var k := if d.up then c else c + 1;
    ReverseCounts(q[..k]);
    assert q == q[..k] + q[k..];
    SliceRises(q, 0, k);
    SliceRises(q, k, |q|);
    ReverseFalls(q[..k]);
    var up, down := q[k..], Reverse(q[..k]);
    hide Served, Sweeps, Reverse, Falling, Rising;
    if d.up {
      Parts(up, down);
    } else {
      Parts(down, up);
    }
  }

  lemma Parts(a: seq<Req>, b: seq<Req>)
    ensures (a + b)[..|a|] == a && (a + b)[|a|..] == b
  {
  }

  lemma {:induction false} ReverseCounts<T>(s: seq<T>)
    ensures multiset(Reverse(s)) == multiset(s)
  {
    if s != [] {
      ReverseCounts(s[1..]);
      assert s == [s[0]] + s[1..];
    }
  }

  // ---------------------------------------------------------------- who is granted

  /** A task that makes requests: not in the queue, blocked in it, woken, or at the device. */
  datatype Phase = Idle | Blocked | Woken | AtDevice

  datatype System = System(d: Device, phase: seq<Phase>)

  predicate Granted(p: Phase) {
    p == Woken || p == AtDevice
  }

  function PhaseOf(s: System, t: nat): Phase {
    if t < |s.phase| then s.phase[t] else Idle
  }

  /** device_request up to the point where it blocks or goes to the device. */
  function Arrive(s: System, t: nat, idx: u32): System
    requires t < |s.phase|
  {
    var empty := s.d.queue == [];
    System(s.d.(queue := InsertBy(s.d.queue, Req(t, idx, !empty), Key)), s.phase[t := if empty then AtDevice else Blocked])
  }

  /** The woken task goes on to the device. */
  function Resume(s: System, t: nat): System
    requires t < |s.phase|
  {
    s.(phase := s.phase[t := AtDevice])
  }

  /** The rest of device_request, for the request at position c: the next one is woken. */
  function Complete(s: System, c: nat): System
    requires c < |s.d.queue| && s.d.queue[c].task < |s.phase|
  {
    var done := s.phase[s.d.queue[c].task := Idle];
    System(Removed(s.d, c),
           if HasNext(s.d, c) && s.d.queue[NextAt(s.d, c)].task < |s.phase| then done[s.d.queue[NextAt(s.d, c)].task := Woken] else done)
  }

  /** The request of task t is somewhere in the queue. */
  ghost predicate Queued(s: System, t: nat) {
    HasTask(s.d.queue, t)
  }

  ghost predicate HasTask(q: seq<Req>, t: nat) {
    exists i :: 0 <= i < |q| && q[i].task == t
  }

  ghost predicate QueueOk(s: System) {
    (forall i :: 0 <= i < |s.d.queue| ==> s.d.queue[i].task < |s.phase|) &&
    (forall i, j :: 0 <= i < j < |s.d.queue| ==> s.d.queue[i].task != s.d.queue[j].task)
  }

  ghost predicate PhaseOk(s: System, t: nat) {
    t < |s.phase| ==> (s.phase[t] != Idle <==> Queued(s, t))
  }

  /** One request for each task that is not idle, all but one of them blocked and recorded. */
  ghost predicate Inv(s: System) {
    SortedBy(s.d.queue, Key) && QueueOk(s) && (forall t :: PhaseOk(s, t)) && (s.d.queue != [] ==> exists i :: OnlyGranted(s, i))
  }

  ghost predicate OnlyGranted(s: System, i: nat) {
    i < |s.d.queue| && Granted(PhaseOf(s, s.d.queue[i].task)) &&
    forall j :: 0 <= j < |s.d.queue| && j != i ==> PhaseOf(s, s.d.queue[j].task) == Blocked && s.d.queue[j].recorded
  }

  lemma InsertedAt(q: seq<Req>, r: Req, p: nat, i: nat)
    requires p <= |q| && i <= |q|
    ensures (q[..p] + [r] + q[p..])[i] == if i < p then q[i] else if i == p then r else q[i - 1]
  {
  }

  /** The queue with a new request at place p. */
  ghost predicate Inserted(s: System, s': System, r: Req, p: nat) {
    Inv(s) && r.task < |s.phase| && s.phase[r.task] == Idle && p <= |s.d.queue| && r.recorded == (s.d.queue != []) &&
    s'.d.queue == s.d.queue[..p] + [r] + s.d.queue[p..] &&
    s'.phase == s.phase[r.task := if s.d.queue == [] then AtDevice else Blocked]
  }

  lemma InsertedPhase(s: System, s': System, r: Req, p: nat, u: nat)
    requires Inserted(s, s', r, p)
    ensures PhaseOk(s', u)
  {
    var q := s.d.queue;
    assert PhaseOk(s, u);
    if u < |s.phase| {
      InsertedAt(q, r, p, p);
      if u == r.task {
        assert s'.d.queue[p].task == u;
      } else if Queued(s, u) {
        var i :| 0 <= i < |q| && q[i].task == u;
        InsertedAt(q, r, p, if i < p then i else i + 1);
        assert s'.d.queue[if i < p then i else i + 1].task == u;
      } else {
        forall i | 0 <= i < |s'.d.queue| ensures s'.d.queue[i].task != u {
          InsertedAt(q, r, p, i);
        }
      }
    }
  }

  lemma InsertedQueue(s: System, s': System, r: Req, p: nat)
    requires Inserted(s, s', r, p)
    ensures QueueOk(s')
  {
    var q := s.d.queue;
    assert PhaseOk(s, r.task) && !Queued(s, r.task);
    forall i, j | 0 <= i < j < |s'.d.queue| ensures s'.d.queue[i].task != s'.d.queue[j].task {
      InsertedAt(q, r, p, i);
      InsertedAt(q, r, p, j);
    }
    forall i | 0 <= i < |s'.d.queue| ensures s'.d.queue[i].task < |s'.phase| {
      InsertedAt(q, r, p, i);
    }
  }

  lemma InsertedGranted(s: System, s': System, r: Req, p: nat)
    requires Inserted(s, s', r, p)
    ensures exists i :: OnlyGranted(s', i)
  {
    var q := s.d.queue;
    assert PhaseOk(s, r.task) && !Queued(s, r.task);
    if q == [] {
      assert OnlyGranted(s', 0);
    } else {
      var g: nat :| OnlyGranted(s, g);
      var g' := if g < p then g else g + 1;
      InsertedAt(q, r, p, g');
      forall j | 0 <= j < |s'.d.queue| && j != g' ensures PhaseOf(s', s'.d.queue[j].task) == Blocked && s'.d.queue[j].recorded {
        InsertedAt(q, r, p, j);
      }
      assert OnlyGranted(s', g');
    }
  }

  /** A request joins the others, for the sector asked for, and its task waits unless it is the
      only one. */
  lemma ArriveIs(s: System, t: nat, idx: u32)
    requires t < |s.phase|
    ensures var s' := Arrive(s, t, idx);
      multiset(s'.d.queue) == multiset(s.d.queue) + multiset{Req(t, idx, s.d.queue != [])} && s'.d.up == s.d.up &&
      s'.phase == s.phase[t := if s.d.queue == [] then AtDevice else Blocked]
  {
    var r := Req(t, idx, s.d.queue != []);
    var p := InsertByAt(s.d.queue, r, Key);
    assert s.d.queue == s.d.queue[..p] + s.d.queue[p..];
  }

  lemma ArriveKeeps(s: System, t: nat, idx: u32)
    requires Inv(s) && t < |s.phase| && s.phase[t] == Idle
    ensures Inv(Arrive(s, t, idx))
  {
    hide PhaseOk, OnlyGranted, QueueOk;
    var r := Req(t, idx, s.d.queue != []);
    var s' := Arrive(s, t, idx);
    InsertBySorts(s.d.queue, r, Key);
    var p := InsertByAt(s.d.queue, r, Key);
    assert Inserted(s, s', r, p);
    InsertedQueue(s, s', r, p);
    InsertedGranted(s, s', r, p);
    forall u: nat ensures PhaseOk(s', u) {
      InsertedPhase(s, s', r, p, u);
    }
  }

  lemma ResumeKeeps(s: System, t: nat)
    requires Inv(s) && t < |s.phase| && s.phase[t] == Woken
    ensures Inv(Resume(s, t))
  {
    var s' := Resume(s, t);
    assert PhaseOk(s, t);
    var i :| 0 <= i < |s.d.queue| && s.d.queue[i].task == t;
    var g: nat :| OnlyGranted(s, g);
    assert i == g;
    forall u: nat ensures PhaseOk(s', u) {
      assert PhaseOk(s, u);
      assert Queued(s', u) <==> Queued(s, u);
    }
    assert OnlyGranted(s', g);
  }

  /** Completing a request wakes another exactly when one remains, and the one woken was blocked
      and has its task recorded: no wakeup is lost. */
  lemma CompleteKeeps(s: System, c: nat)
    requires Inv(s) && c < |s.d.queue| && PhaseOf(s, s.d.queue[c].task) == AtDevice
    ensures Inv(Complete(s, c))
    ensures HasNext(s.d, c) <==> |s.d.queue| > 1
    ensures HasNext(s.d, c) ==> s.d.queue[NextAt(s.d, c)].recorded && PhaseOf(s, s.d.queue[NextAt(s.d, c)].task) == Blocked
    ensures HasNext(s.d, c) ==> PhaseOf(Complete(s, c), s.d.queue[NextAt(s.d, c)].task) == Woken
  {
    var s' := Complete(s, c);
    NextExists(s.d, c);
    var g: nat :| OnlyGranted(s, g);
    assert g == c;
    CompleteQueue(s, c);
    if HasNext(s.d, c) {
      CompleteGranted(s, c);
    }
    hide OnlyGranted, Queued;
    forall u: nat ensures PhaseOk(s', u) {
      if u < |s.phase| { CompletePhase(s, c, u); }
    }
  }

  lemma CompleteQueue(s: System, c: nat)
    requires Inv(s) && c < |s.d.queue|
    ensures QueueOk(Complete(s, c)) && SortedBy(Complete(s, c).d.queue, Key)
  {
    hide NextAt;
    RemovedAt(s.d.queue, c);
    RemovedSorted(s.d.queue, c);
  }

  lemma RemovedSorted(q: seq<Req>, c: nat)
    requires SortedBy(q, Key) && c < |q|
    ensures SortedBy(q[..c] + q[c + 1..], Key)
  {
    RemovedAt(q, c);
    var r := q[..c] + q[c + 1..];
    forall i, j | 0 <= i < j < |r| ensures Key(r[i]) <= Key(r[j]) {
      assert Key(q[if i < c then i else i + 1]) <= Key(q[if j < c then j else j + 1]);
    }
  }

  lemma CompleteGranted(s: System, c: nat)
    requires Inv(s) && OnlyGranted(s, c) && HasNext(s.d, c)
    ensures OnlyGranted(Complete(s, c), NextIn(s.d, c))
  {
    var q, q', n := s.d.queue, Complete(s, c).d.queue, NextIn(s.d, c);
    NextExists(s.d, c);
    forall j | 0 <= j < |q'| && j != n ensures PhaseOf(Complete(s, c), q'[j].task) == Blocked && q'[j].recorded {
      assert q'[j] == q[if j < c then j else j + 1];
    }
  }

  lemma RemovedAt(q: seq<Req>, c: nat)
    requires c < |q|
    ensures forall i :: 0 <= i < |q| - 1 ==> (q[..c] + q[c + 1..])[i] == if i < c then q[i] else q[i + 1]
  {
  }

  lemma CompletePhase(s: System, c: nat, u: nat)
    requires Inv(s) && c < |s.d.queue| && u < |s.phase|
    ensures PhaseOk(Complete(s, c), u)
  {
    CompleteQueued(s, c, u);
    assert PhaseOk(s, u);
    if HasNext(s.d, c) {
      NextExists(s.d, c);
      var n := s.d.queue[NextAt(s.d, c)].task;
      assert Queued(s, n);
      assert n != s.d.queue[c].task;
      CompleteQueued(s, c, n);
    }
    hide Queued, Removed, NextAt;
  }

  /** Whose requests are left when one is taken out. */
  lemma RemovedTasks(q: seq<Req>, c: nat, u: nat)
    requires c < |q| && forall i, j :: 0 <= i < j < |q| ==> q[i].task != q[j].task
    ensures HasTask(q[..c] + q[c + 1..], u) <==> HasTask(q, u) && u != q[c].task
  {
    var r := q[..c] + q[c + 1..];
    RemovedAt(q, c);
    if i :| 0 <= i < |q| && q[i].task == u && u != q[c].task {
      assert r[if i < c then i else i - 1].task == u;
    }
    if i :| 0 <= i < |r| && r[i].task == u {
      assert q[if i < c then i else i + 1].task == u;
    }
  }

  lemma CompleteQueued(s: System, c: nat, u: nat)
    requires Inv(s) && c < |s.d.queue| && u < |s.phase|
    ensures Queued(Complete(s, c), u) <==> Queued(s, u) && u != s.d.queue[c].task
  {
    hide Turned, SortedBy, HasNext, NextAt, OnlyGranted, PhaseOk;
    RemovedTasks(s.d.queue, c, u);
    assert Complete(s, c).d.queue == s.d.queue[..c] + s.d.queue[c + 1..];
  }

  // ---------------------------------------------------------------- runs

  datatype Event = Comes(t: nat, idx: u32) | Runs(t: nat) | Finishes(c: nat)

  predicate Enabled(s: System, e: Event) {
    match e
    case Comes(t, _) => t < |s.phase| && s.phase[t] == Idle
    case Runs(t) => t < |s.phase| && s.phase[t] == Woken
    case Finishes(c) => c < |s.d.queue| && s.d.queue[c].task < |s.phase| && PhaseOf(s, s.d.queue[c].task) == AtDevice
  }

  function Next(s: System, e: Event): System
    requires Enabled(s, e)
  {
    match e
    case Comes(t, idx) => Arrive(s, t, idx)
    case Runs(t) => Resume(s, t)
    case Finishes(c) => Complete(s, c)
  }

  ghost predicate Run(states: seq<System>, events: seq<Event>) {
    |states| == |events| + 1 &&
    forall i :: 0 <= i < |events| ==> Enabled(states[i], events[i]) && states[i + 1] == Next(states[i], events[i])
  }

  /** For any number of tasks and any schedule, from an empty queue: while there are requests,
      exactly one is granted. */
  lemma {:induction false} RunKeeps(states: seq<System>, events: seq<Event>, n: nat)
    requires Run(states, events) && n <= |events|
    requires states[0].d.queue == [] && forall t :: 0 <= t < |states[0].phase| ==> states[0].phase[t] == Idle
    ensures Inv(states[n])
  {
    if n == 0 {
      assert forall t: nat :: PhaseOk(states[0], t);
    } else {
      RunKeeps(states, events, n - 1);
      var s := states[n - 1];
      match events[n - 1]
      case Comes(t, idx) => ArriveKeeps(s, t, idx);
      case Runs(t) => ResumeKeeps(s, t);
      case Finishes(c) => CompleteKeeps(s, c);
    }
  }

  /** It never stands still: as long as there are requests, some task can go on. */
  lemma SomeoneCanMove(s: System)
    requires Inv(s) && s.d.queue != []
    ensures exists e :: Enabled(s, e) && !e.Comes?
  {
    var g: nat :| OnlyGranted(s, g);
    var t := s.d.queue[g].task;
    assert Enabled(s, if s.phase[t] == Woken then Runs(t) else Finishes(g));
  }

  // ---------------------------------------------------------------- the device, updated in place

  class BlockDevice {
    var queue: seq<Req>
    var up: bool

    ghost function State(): Device
      reads this
    {
      Device(queue, up)
    }

    /** The queueing part of device_request; whether the caller has to block. */
    method Submit(task: nat, idx: u32) returns (block: bool)
      modifies this
      ensures block == (old(queue) != [])
      ensures State() == old(State()).(queue := InsertBy(old(queue), Req(task, idx, block), Key))
    {
      block := queue != [];
      queue := ListInsertSort(queue, Req(task, idx, block), Key);
    }

    /** request_nextreq and the removal of the request at position c; the request to wake, if
        there is one. */
    method Finish(c: nat) returns (more: bool, next: Req)
      requires c < |queue|
      modifies this
      ensures State() == Removed(old(State()), c)
      ensures more == HasNext(old(State()), c) && (more ==> next == old(queue)[NextAt(old(State()), c)])
    {
      if up && c + 1 == |queue| {
        up := false;
      } else if !up && c == 0 {
        up := true;
      }
      var at := if up then c + 1 else c - 1;
      more := 0 <= at < |queue|;
      next := if more then queue[at] else queue[c];
      queue := queue[..c] + queue[c + 1..];
    }
  }
}
