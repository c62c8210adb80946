/** The reentrant lock over a mutex with a list of waiters (src/kernel/mutex.c), for any number
    of tasks.  What a task does between two points where it may block is one step. */
module Lock {
  import opened Words
  import opened Lists

  /** lock_t and its mutex. */
  datatype LockState = LockState(holder: Option<nat>, repeat: nat, value: bool, waiters: seq<nat>)

  /** Where a task is: elsewhere, on the list of waiters, or taken off it and about to look again. */
  datatype Phase = Running | Waiting | Woken

  /** `depth[t]` counts the acquires of task t that it has not matched with a release. */
  datatype System = System(lock: LockState, phase: seq<Phase>, depth: seq<nat>)

  // ---------------------------------------------------------------- the steps

  /** The loop of mutex_lock: the task takes the mutex, or goes to the front of the waiters. */
  function Try(l: LockState, t: nat): (LockState, bool) {
    if l.value then (l.(waiters := [t] + l.waiters), false)
    else (LockState(Some(t), 1, true, l.waiters), true)
  }

  /** lock_acquire up to its end or to where it blocks. */
  function Acquire(l: LockState, t: nat): (LockState, bool) {
    if l.holder == Some(t) then (l.(repeat := l.repeat + 1), true) else Try(l, t)
  }

  /** lock_release; the task it wakes, if any, is the last of the waiters. */
  function Release(l: LockState): (LockState, Option<nat>) {
    if l.repeat > 1 then (l.(repeat := l.repeat - 1), None)
    else if l.waiters == [] then (LockState(None, 0, false, []), None)
    else (LockState(None, 0, false, Front(l.waiters)), Some(Last(l.waiters)))
  }

  datatype Event = Acquires(t: nat) | Retries(t: nat) | Releases(t: nat)

  predicate Enabled(s: System, e: Event) {
    e.t < |s.phase| == |s.depth| &&
    match e
    case Acquires(t) => s.phase[t] == Running
    case Retries(t) => s.phase[t] == Woken
    case Releases(t) => s.phase[t] == Running && s.depth[t] > 0
  }

  function Taken(s: System, l: LockState, t: nat, got: bool): System
    requires t < |s.phase| == |s.depth|
  {
    System(l, s.phase[t := if got then Running else Waiting], if got then s.depth[t := s.depth[t] + 1] else s.depth)
  }

  function Next(s: System, e: Event): System
    requires Enabled(s, e)
  {
    match e
    case Acquires(t) => var (l, got) := Acquire(s.lock, t); Taken(s, l, t, got)
    case Retries(t) => var (l, got) := Try(s.lock, t); Taken(s, l, t, got)
    case Releases(t) =>
      var (l, w) := Release(s.lock);
      System(l, if w.Some? && w.value < |s.phase| then s.phase[w.value := Woken] else s.phase, s.depth[t := s.depth[t] - 1])
  }

  // ---------------------------------------------------------------- the invariant

  /** Only the holder has acquires to match, and `repeat` counts them. */
  ghost predicate DepthOk(s: System, t: nat) {
    t < |s.depth| ==> s.depth[t] == if s.lock.holder == Some(t) then s.lock.repeat else 0
  }

  ghost predicate PhaseOk(s: System, t: nat) {
    t < |s.phase| ==> (s.phase[t] == Waiting <==> t in s.lock.waiters) && (s.lock.holder == Some(t) ==> s.phase[t] == Running)
  }

  ghost predicate Inv(s: System) {
    |s.phase| == |s.depth| && (s.lock.value <==> s.lock.holder.Some?) && (s.lock.holder.Some? <==> s.lock.repeat > 0) &&
    (s.lock.holder.Some? ==> s.lock.holder.value < |s.phase|) &&
    NoDup(s.lock.waiters) && (forall t :: t in s.lock.waiters ==> t < |s.phase|) &&
    (forall t :: DepthOk(s, t) && PhaseOk(s, t)) &&
    (!s.lock.value && s.lock.waiters != [] ==> exists t :: 0 <= t < |s.phase| && s.phase[t] == Woken)
  }

  lemma TryKeeps(s: System, t: nat)
    requires Inv(s) && t < |s.phase| && s.phase[t] != Waiting && s.lock.holder != Some(t)
    ensures var (l, got) := Try(s.lock, t); Inv(Taken(s, l, t, got)) && (got <==> s.lock.holder == None)
  {
    var (l, got) := Try(s.lock, t);
    var s' := Taken(s, l, t, got);
    assert PhaseOk(s, t);
    forall u: nat ensures DepthOk(s', u) && PhaseOk(s', u) {
      assert DepthOk(s, u) && PhaseOk(s, u);
    }
  }

  /** lock_release keeps it; its assertions hold, and the task it wakes was waiting. */
  lemma ReleaseKeeps(s: System, t: nat)
    requires Inv(s) && Enabled(s, Releases(t))
    ensures Inv(Next(s, Releases(t)))
    ensures s.lock.holder == Some(t) && s.lock.repeat >= 1 && s.lock.value
    ensures var w := Release(s.lock).1; w.Some? ==> w.value < |s.phase| && s.phase[w.value] == Waiting
    ensures Release(s.lock).1.Some? <==> s.lock.repeat == 1 && s.lock.waiters != []
  {
    var s' := Next(s, Releases(t));
    assert DepthOk(s, t) && PhaseOk(s, t);
    var w := Release(s.lock).1;
    if w.Some? {
      FrontHolds(s.lock.waiters);
      assert w.value in s.lock.waiters && PhaseOk(s, w.value);
      assert s'.phase[w.value] == Woken;
    }
    forall u: nat ensures DepthOk(s', u) && PhaseOk(s', u) {
      assert DepthOk(s, u) && PhaseOk(s, u);
    }
  }

  lemma NextKeeps(s: System, e: Event)
    requires Inv(s) && Enabled(s, e)
    ensures Inv(Next(s, e))
  {
    match e
    case Acquires(t) =>
      assert DepthOk(s, t) && PhaseOk(s, t);
      if s.lock.holder == Some(t) {
        var s' := Next(s, e);
        forall u: nat ensures DepthOk(s', u) && PhaseOk(s', u) {
          assert DepthOk(s, u) && PhaseOk(s, u);
        }
        assert s'.phase == s.phase;
      } else {
        TryKeeps(s, t);
      }
    case Retries(t) =>
      assert PhaseOk(s, t);
      TryKeeps(s, t);
    case Releases(t) => ReleaseKeeps(s, t);
  }

  // ---------------------------------------------------------------- runs

  ghost predicate Run(states: seq<System>, events: seq<Event>) {
    |states| == |events| + 1 &&
    forall i :: 0 <= i < |events| ==> Enabled(states[i], events[i]) && states[i + 1] == Next(states[i], events[i])
  }

  function Start(n: nat): System {
    System(LockState(None, 0, false, []), seq(n, _ => Running), seq(n, _ => 0))
  }

  lemma {:induction false} RunInv(states: seq<System>, events: seq<Event>, k: nat)
    requires Run(states, events) && Inv(states[0]) && k <= |events|
    ensures Inv(states[k])
    decreases k
  {
    hide Inv, Next, Enabled;
    if k > 0 {
      RunInv(states, events, k - 1);
      NextKeeps(states[k - 1], events[k - 1]);
    }
  }

  lemma RunKeeps(states: seq<System>, events: seq<Event>, n: nat, k: nat)
    requires Run(states, events) && states[0] == Start(n) && k <= |events|
    ensures Inv(states[k])
  {
    assert forall t: nat :: DepthOk(Start(n), t) && PhaseOk(Start(n), t);
    RunInv(states, events, k);
  }

  /** In every reachable state: at most one task is inside; `repeat` is the number of its
      unmatched acquires; and if the mutex is free while tasks wait for it, one taken off the
      list is about to try again. */
  lemma MutualExclusion(states: seq<System>, events: seq<Event>, n: nat, k: nat)
    requires Run(states, events) && states[0] == Start(n) && k <= |events|
    ensures |states[k].depth| == |states[k].phase|
    ensures forall t, u :: 0 <= t < |states[k].depth| && 0 <= u < |states[k].depth| && states[k].depth[t] > 0 && states[k].depth[u] > 0 ==> t == u
    ensures forall t :: 0 <= t < |states[k].depth| && states[k].depth[t] > 0 ==>
      states[k].lock.holder == Some(t) && states[k].lock.repeat == states[k].depth[t]
    ensures !states[k].lock.value && states[k].lock.waiters != [] ==> exists t :: 0 <= t < |states[k].phase| && states[k].phase[t] == Woken
  {
    RunKeeps(states, events, n, k);
    var s := states[k];
    forall t | 0 <= t < |s.depth| && s.depth[t] > 0 ensures s.lock.holder == Some(t) && s.lock.repeat == s.depth[t] {
      assert DepthOk(s, t);
    }
  }

  /** As long as a task waits, some task can make a step that frees the mutex or takes it. */
  lemma SomeoneCanMove(s: System)
    requires Inv(s) && s.lock.waiters != []
    ensures exists e :: Enabled(s, e) && (e.Releases? || (e.Retries? && !s.lock.value))
  {
    if s.lock.value {
      var t := s.lock.holder.value;
      assert DepthOk(s, t) && PhaseOk(s, t);
      assert Enabled(s, Releases(t));
    } else {
      var t :| 0 <= t < |s.phase| && s.phase[t] == Woken;
      assert Enabled(s, Retries(t));
    }
  }

  // ---------------------------------------------------------------- who is next

  /** lock_release by event i wakes task t, which looks at the mutex again at event j and not
      before. */
  ghost predicate WokenUntil(states: seq<System>, events: seq<Event>, i: nat, j: nat, t: nat) {
    Run(states, events) && i < j < |events| && events[i].Releases? && Release(states[i].lock).1 == Some(t) &&
    events[j] == Retries(t) && forall k :: i < k < j ==> events[k] != Retries(t)
  }

  /** Nobody holds the mutex until t does. */
  ghost predicate NextHolder(states: seq<System>, i: nat, j: nat, t: nat)
    requires i < j && j + 1 < |states|
  {
    (forall k :: i < k <= j ==> states[k].lock.holder == None) && states[j + 1].lock.holder == Some(t)
  }

  /** A free mutex is taken by the next operation on it, whoever's that is. */
  lemma FreeIsTaken(s: System, e: Event)
    requires Inv(s) && Enabled(s, e) && s.lock.holder == None
    ensures Next(s, e).lock.holder == Some(e.t)
  {
    assert DepthOk(s, e.t);
  }

  /** The task that mutex_unlock wakes is the next holder exactly when its own look at the mutex
      is the next operation on it.  When it looks, it gets the mutex exactly if it is free. */
  lemma WokenIsNext(states: seq<System>, events: seq<Event>, i: nat, j: nat, t: nat)
    requires WokenUntil(states, events, i, j, t) && Inv(states[0])
    ensures NextHolder(states, i, j, t) <==> j == i + 1
    ensures states[j + 1].lock.holder == Some(t) <==> !states[j].lock.value
  {
    hide Inv;
    RunInv(states, events, i);
    RunInv(states, events, i + 1);
    RunInv(states, events, j);
    ReleaseKeeps(states[i], events[i].t);
    RetryGets(states[j], t);
    if j > i + 1 {
      FreeIsTaken(states[i + 1], events[i + 1]);
      assert states[i + 2].lock.holder != None;
    }
  }

  lemma RetryGets(s: System, t: nat)
    requires Inv(s) && Enabled(s, Retries(t))
    ensures Next(s, Retries(t)).lock.holder == Some(t) <==> !s.lock.value
  {
    assert PhaseOk(s, t);
  }

  /** Task 0 is inside, task 1 waits. */
  function Contended(): System {
    Next(Next(Start(2), Acquires(0)), Acquires(1))
  }

  /** One round: task 0 leaves, and comes back before the task it woke looks. */
  lemma Barges()
    ensures Enabled(Contended(), Releases(0)) && Release(Contended().lock).1 == Some(1) && Contended().lock.holder == Some(0)
    ensures var s1 := Next(Contended(), Releases(0));
      Enabled(s1, Acquires(0)) && s1.phase[1] == Woken && s1.lock.holder == None &&
      var s2 := Next(s1, Acquires(0));
      Enabled(s2, Retries(1)) && s2.lock.holder == Some(0) && Next(s2, Retries(1)) == Contended()
  {
  }

  /** So the yield in mutex_unlock does not keep a task from starving: it may be woken any number
      of times and never get the mutex. */
  lemma {:induction false} Starves(n: nat) returns (states: seq<System>, events: seq<Event>)
    ensures Run(states, events) && |events| == 3 * n && states[0] == Contended() && states[3 * n] == Contended()
    ensures forall i :: 0 <= i < n ==> events[3 * i] == Releases(0) && Release(states[3 * i].lock).1 == Some(1)
    ensures forall k :: 0 <= k <= 3 * n ==> states[k].lock.holder != Some(1)
  {
    Barges();
    hide Contended, Next, Enabled, Release;
    if n == 0 {
      states, events := [Contended()], [];
    } else {
      states, events := Starves(n - 1);
      var s1 := Next(Contended(), Releases(0));
      var s2 := Next(s1, Acquires(0));
      states, events := states + [s1, s2, Contended()], events + [Releases(0), Acquires(0), Retries(1)];
    }
  }

  // ---------------------------------------------------------------- who is woken

  /** The task that goes to wait, if one does. */
  function GoesToWait(s: System, e: Event): Option<nat>
    requires Enabled(s, e)
  {
    match e
    case Acquires(t) => if Acquire(s.lock, t).1 then None else Some(t)
    case Retries(t) => if Try(s.lock, t).1 then None else Some(t)
    case Releases(_) => None
  }

  /** When each task last went to wait. */
  function Since(states: seq<System>, events: seq<Event>, n: nat): map<nat, nat>
    requires n <= |events| < |states| && forall i :: 0 <= i < n ==> Enabled(states[i], events[i])
  {
    if n == 0 then map[]
    else
      var t := GoesToWait(states[n - 1], events[n - 1]);
      if t.Some? then Since(states, events, n - 1)[t.value := n - 1] else Since(states, events, n - 1)
  }

  lemma {:induction false} SincePast(states: seq<System>, events: seq<Event>, n: nat)
    requires n <= |events| < |states| && forall i :: 0 <= i < n ==> Enabled(states[i], events[i])
    ensures forall t :: t in Since(states, events, n) ==> Since(states, events, n)[t] < n
  {
    if n > 0 { SincePast(states, events, n - 1); }
  }

  lemma NextKeepsOrder(s: System, e: Event, since: map<nat, nat>, now: nat)
    requires Inv(s) && Enabled(s, e) && NewestFirst(s.lock.waiters, since) && forall t :: t in since ==> since[t] < now
    ensures var t := GoesToWait(s, e);
      NewestFirst(Next(s, e).lock.waiters, if t.Some? then since[t.value := now] else since)
  {
    assert PhaseOk(s, e.t);
    match e
    case Acquires(t) => NewComesUnless(s, since, t, now);
    case Retries(t) => NewComesUnless(s, since, t, now);
    case Releases(_) => if s.lock.waiters != [] { LastGoes(s.lock.waiters, since); }
  }

  lemma NewComesUnless(s: System, since: map<nat, nat>, t: nat, now: nat)
    requires t !in s.lock.waiters && NewestFirst(s.lock.waiters, since) && forall u :: u in since ==> since[u] < now
    ensures NewestFirst([t] + s.lock.waiters, since[t := now])
  {
    NewComes(s.lock.waiters, since, t, now);
  }

  /** In every run the waiters stand in the order in which they came. */
  lemma {:induction false} RunKeepsOrder(states: seq<System>, events: seq<Event>, n: nat, k: nat)
    requires Run(states, events) && states[0] == Start(n) && k <= |events|
    ensures NewestFirst(states[k].lock.waiters, Since(states, events, k))
    decreases k
  {
    hide Inv, Next, Enabled, NewestFirst;
    if k > 0 {
      RunKeepsOrder(states, events, n, k - 1);
      RunKeeps(states, events, n, k - 1);
      SincePast(states, events, k - 1);
      NextKeepsOrder(states[k - 1], events[k - 1], Since(states, events, k - 1), k - 1);
    } else {
      NobodyInOrder();
    }
  }

  lemma NobodyInOrder()
    ensures NewestFirst([], map[])
  {
  }

  predicate LongestOf(waiters: seq<nat>, since: map<nat, nat>, t: nat) {
    t in waiters && t in since && forall u :: u in waiters ==> u in since && since[t] <= since[u]
  }

  /** lock_release wakes the task that has waited longest. */
  lemma LongestIsWoken(states: seq<System>, events: seq<Event>, n: nat, k: nat)
    requires Run(states, events) && states[0] == Start(n) && k < |events| && events[k].Releases?
    requires Release(states[k].lock).1.Some?
    ensures LongestOf(states[k].lock.waiters, Since(states, events, k), Release(states[k].lock).1.value)
  {
    RunKeepsOrder(states, events, n, k);
    LastGoes(states[k].lock.waiters, Since(states, events, k));
  }

  // ---------------------------------------------------------------- the lock, updated in place

  class ReentrantLock {
    var holder: Option<nat>
    var repeat: nat
    var value: bool
    var waiters: seq<nat>

    ghost function State(): LockState
      reads this
    {
      LockState(holder, repeat, value, waiters)
    }

    /** One turn of the loop of mutex_lock, and what lock_acquire does after it. */
    method TryLock(current: nat) returns (got: bool)
      modifies this
      ensures (State(), got) == Try(old(State()), current)
    {
      if value {
        waiters := [current] + waiters;
        return false;
      }
      value := true;
      holder := Some(current);
      repeat := 1;
      got := true;
    }

    /** lock_acquire. */
    method AcquireLock(current: nat) returns (got: bool)
      modifies this
      ensures (State(), got) == Acquire(old(State()), current)
    {
      if holder != Some(current) {
        got := TryLock(current);
      } else {
        repeat := repeat + 1;
        got := true;
      }
    }

    /** mutex_unlock: the last waiter is taken off the list. */
    method Unlock() returns (woken: Option<nat>)
      modifies this
      ensures State() == old(State()).(value := false, waiters := if old(waiters) == [] then [] else Front(old(waiters)))
      ensures woken == if old(waiters) == [] then None else Some(Last(old(waiters)))
    {
      value := false;
      woken := None;
      if waiters != [] {
        woken := Some(Last(waiters));
        waiters := Front(waiters);
      }
    }

    /** lock_release by its holder. */
    method ReleaseLock() returns (woken: Option<nat>)
      requires repeat >= 1
      modifies this
      ensures (State(), woken) == Release(old(State()))
    {
      if repeat > 1 {
        repeat := repeat - 1;
        return None;
      }
      holder := None;
      repeat := 0;
      woken := Unlock();
    }
  }
}
