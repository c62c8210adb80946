/** When a blocked task wakes up. */
module TimerClock {
  import opened Words
  import opened Lists
  import opened Timers
  import opened TimerEffects

  /** Task t is blocked, and x is its timeout. */
  ghost predicate WaitsFor(s: System, t: nat, x: Timer) {
    t < |s.tasks| && s.tasks[t].wait == Blocked && x in s.timers && x.handler.Timeout? && x.task == t
  }

  lemma PointsElsewhere(s: System, t: nat, x: Timer, u: nat, h: Handler)
    requires Inv(s) && WaitsFor(s, t, x) && !h.Timeout?
    ensures FieldOf(s, u, h) != Some(x.id)
  {
    assert FieldOk(s, u, h);
  }

  lemma OneTimeout(s: System, t: nat, x: Timer, y: Timer)
    requires Inv(s) && WaitsFor(s, t, x) && y in s.timers && y.handler.Timeout? && y.task == t
    ensures y == x
  {
    assert TimerOk(s, x) && TimerOk(s, y);
  }

  /** What others do, other than waking the task, leaves it waiting. */
  lemma StaysWaiting(s: System, e: Event, t: nat, x: Timer)
    requires Inv(s) && Enabled(s, e) && WaitsFor(s, t, x) && e != Unblocks(t) && e != Clock
    ensures WaitsFor(Next(s, e), t, x) && Next(s, e).now == s.now
  {
    match e
    case Blocks(u, wait, timeout) => BlockIs(s, u, wait, timeout);
    case Unblocks(u) => UnblockKeeps(s, u);
    case SetsAlarm(u, ticks) =>
      PointsElsewhere(s, t, x, u, Alarm);
      var a := TaskAt(s, u).alarm;
      var s1 := if a.Some? then PutTimer(s, a.value) else s;
      InsertByHolds(s1.timers, Timer(s.nextId, u, Expires(s.now, ticks), Alarm), Key);
    case StopsMotor(u, ticks) =>
      PointsElsewhere(s, t, x, u, Motor);
      MotorLeaves(s, u, ticks, x);
    case Forks(u) => ForkIs(s, u);
    case Exits(u) =>
      SameListOk(s, SetTask(s, u, TaskAt(s, u).(wait := Dead)));
      RemoveIs(SetTask(s, u, TaskAt(s, u).(wait := Dead)), u);
  }

  lemma MotorLeaves(s: System, u: nat, ticks: u32, x: Timer)
    requires x in s.timers && s.motor != Some(x.id)
    ensures var s' := MotorOff(s, u, ticks); x in s'.timers && s'.tasks == s.tasks && s'.now == s.now
  {
    if s.motor.None? {
      InsertByHolds(s.timers, Timer(s.nextId, u, Expires(s.now, ticks), Motor), Key);
    } else {
      var m := Find(s.timers, s.motor.value);
      if m.Some? {
        InsertByHolds(Drop(s.timers, s.motor.value), m.value.(expires := Expires(s.now, ticks)), Key);
      }
    }
  }

  /** While its time has not come, nothing that fires wakes it. */
  lemma NotYet(s: System, t: nat, x: Timer)
    requires Inv(s) && WaitsFor(s, t, x) && x.expires > s.now
    ensures WaitsFor(Wakeup(s), t, x)
  {
    WakeupFires(s);
    WakeupWakes(s, t);
    hide Wakeup, Inv;
    var f := Wakeup(s).fired[|s.fired|..];
    forall i | 0 <= i < |f| ensures !Rings(s, f[i], t) {
      assert f[i] in f;
      if f[i].handler.Timeout? && f[i].task == t { OneTimeout(s, t, x, f[i]); }
    }
    assert x !in f;
    forall y | y in f ensures !Cancels(s, y, x) {
    }
  }

  lemma NoneHigh(s: System)
    requires AllLow(s)
    ensures !Crossed(Tick(s))
  {
  }

  /** A tick wakes it exactly if its time has come. */
  lemma TickDecides(s: System, t: nat, x: Timer)
    requires Inv(s) && AllLow(s) && WaitsFor(s, t, x) && Enabled(s, Clock)
    ensures var s' := Next(s, Clock);
      s'.now == (s.now + 1) % 0x1_0000_0000 &&
      if x.expires <= s'.now then TaskAt(s', t).wait == Awake else WaitsFor(s', t, x)
  {
    hide Wakeup, Inv, Crossed, AllLow, FiredFrom;
    NoneHigh(s);
    TickKeeps(s);
    WakeupFires(Tick(s));
    if x.expires <= Tick(s).now {
      TimeoutEnds(Tick(s), x);
    } else {
      NotYet(Tick(s), t, x);
    }
  }

  /** The ticks among events[i..j]. */
  function Ticks(events: seq<Event>, i: nat, j: nat): nat
    requires i <= j <= |events|
  {
    if i == j then 0 else Ticks(events, i, j - 1) + if events[j - 1].Clock? then 1 else 0
  }

  /** Nothing ends at 2^31 or later, and no pointer to a timer is copied or left behind. */
  ghost predicate Usual(states: seq<System>, events: seq<Event>, n: nat) {
    Run(states, events) && n <= |events| && Inv(states[0]) && AllLow(states[0]) &&
    forall i :: 0 <= i < n ==> EndsAt(states[i], events[i]) < 0x8000_0000 && Safe(states[i], events[i])
  }

  /** Task t blocks for so many ticks at event i, and nobody unblocks it before event j. */
  predicate BlocksFor(events: seq<Event>, i: nat, j: nat, t: nat, ticks: u32) {
    i < j <= |events| && events[i] == Blocks(t, Blocked, Some(ticks)) && forall k :: i < k < j ==> events[k] != Unblocks(t)
  }

  /** The tick that ends it: not the one before it, even for no ticks. */
  function DueAfter(ticks: u32): nat {
    if ticks == 0 then 1 else ticks
  }

  lemma JustBlocked(s: System, t: nat, ticks: u32)
    requires Enabled(s, Blocks(t, Blocked, Some(ticks))) && s.now + ticks < 0x1_0000_0000
    ensures var s' := Next(s, Blocks(t, Blocked, Some(ticks)));
      s'.now == s.now && WaitsFor(s', t, Timer(s.nextId, t, s.now + ticks, Timeout))
  {
    BlockIs(s, t, Blocked, Some(ticks));
  }

  lemma {:induction false} WaitsTill(states: seq<System>, events: seq<Event>, i: nat, j: nat, t: nat, ticks: u32)
    requires Usual(states, events, j) && BlocksFor(events, i, j, t, ticks) && Ticks(events, i + 1, j) < DueAfter(ticks)
    ensures Inv(states[j]) && AllLow(states[j])
    ensures states[i].now + ticks < 0x8000_0000 && states[j].now == states[i].now + Ticks(events, i + 1, j)
    ensures WaitsFor(states[j], t, Timer(states[i].nextId, t, states[i].now + ticks, Timeout))
    decreases j
  {
    hide Inv, AllLow, WaitsFor, Next, Enabled, Safe, OnTime;
    var x := Timer(states[i].nextId, t, states[i].now + ticks, Timeout);
    RunKeeps(states, events, j);
    RunOnTime(states, events, j);
    assert EndsAt(states[i], events[i]) < 0x8000_0000;
    if j == i + 1 {
      JustBlocked(states[i], t, ticks);
    } else {
      WaitsTill(states, events, i, j - 1, t, ticks);
      assert Enabled(states[j - 1], events[j - 1]) && states[j] == Next(states[j - 1], events[j - 1]);
      if events[j - 1] == Clock {
        TickDecides(states[j - 1], t, x);
      } else {
        StaysWaiting(states[j - 1], events[j - 1], t, x);
      }
    }
  }

  /** In every such run a task that blocks with a timeout stays blocked until as many ticks have
      passed, or one for no ticks at all, and the last of them wakes it. */
  lemma WakesOnTime(states: seq<System>, events: seq<Event>, i: nat, j: nat, t: nat, ticks: u32)
    requires Usual(states, events, j) && BlocksFor(events, i, j, t, ticks)
    ensures Ticks(events, i + 1, j) < DueAfter(ticks) ==> TaskAt(states[j], t).wait == Blocked
    ensures Ticks(events, i + 1, j) == DueAfter(ticks) && events[j - 1] == Clock ==> TaskAt(states[j], t).wait == Awake
  {
    hide Inv, AllLow, Next, Enabled, Safe, OnTime;
    if Ticks(events, i + 1, j) < DueAfter(ticks) {
      WaitsTill(states, events, i, j, t, ticks);
    } else if Ticks(events, i + 1, j) == DueAfter(ticks) && events[j - 1] == Clock {
      WaitsTill(states, events, i, j - 1, t, ticks);
      TickDecides(states[j - 1], t, Timer(states[i].nextId, t, states[i].now + ticks, Timeout));
    }
  }
}
