/** What blocking, killing and the expiry of timers do to the tasks: which timers are made, and who
    is woken. */
module TimerEffects {
  import opened Words
  import opened Lists
  import opened Timers

  /** Task u is as it was. */
  predicate SameTask(s: System, s': System, u: nat) {
    TaskAt(s', u) == TaskAt(s, u)
  }

  /** task_block: the task waits, and if it has a timeout one timer more is pending, for that time
      from now. */
  lemma BlockIs(s: System, t: nat, wait: Wait, timeout: Option<u32>)
    requires t < |s.tasks|
    ensures var s' := Block(s, t, wait, timeout);
      TaskAt(s', t).wait == wait && (forall u: nat :: u != t ==> SameTask(s, s', u)) && s'.released == s.released &&
      forall y :: y in s'.timers <==>
        y in s.timers || (timeout.Some? && y == Timer(s.nextId, t, (s.now + timeout.value) % 0x1_0000_0000, Timeout))
    ensures timeout.Some? ==> TaskAt(Block(s, t, wait, timeout), t).timer == Some(s.nextId)
  {
    if timeout.Some? {
      InsertByHolds(s.timers, Timer(s.nextId, t, Expires(s.now, timeout.value), Timeout), Key);
    }
  }

  /** sys_kill wakes a task that sleeps exactly if signals reach it, and its timeout is cancelled. */
  lemma KillIs(s: System, t: nat)
    requires Inv(s) && t < |s.tasks|
    ensures var s', k := Kill(s, t), s.tasks[t];
      TaskAt(s', t).wait == (if Sleeps(s, t) then Awake else k.wait) &&
      (forall u: nat :: u != t ==> SameTask(s, s', u)) &&
      forall y :: y in s'.timers <==>
        y in s.timers && !(Sleeps(s, t) && y.handler.Timeout? && y.task == t)
  {
    if Sleeps(s, t) {
      UnblockKeeps(s, t);
    }
  }

  // ---------------------------------------------------------------- who is woken

  /** The expiry of x wakes task t: x is its timeout, or the alarm that ends its sleep. */
  predicate Rings(s: System, x: Timer, t: nat) {
    x.task == t && (x.handler.Timeout? || (x.handler.Alarm? && Sleeps(s, t)))
  }

  ghost predicate RungBy(s: System, f: seq<Timer>, t: nat) {
    exists i :: 0 <= i < |f| && Rings(s, f[i], t)
  }

  lemma FireWakes(s: System, t: nat)
    requires Inv(s) && s.timers != [] && t < |s.tasks|
    ensures |Fire(s).tasks| == |s.tasks| && TaskAt(Fire(s), t).signals == s.tasks[t].signals
    ensures TaskAt(Fire(s), t).wait == if Rings(s, s.timers[0], t) then Awake else s.tasks[t].wait
  {
    var x := s.timers[0];
    assert x in s.timers && TimerOk(s, x);
  }

  /** timer_wakeup wakes exactly the tasks whose timeout fired, and the sleeping ones whose alarm
      fired and whom signals reach. */
  lemma {:induction false} WakeupWakes(s: System, t: nat)
    requires Inv(s) && t < |s.tasks|
    ensures s.fired <= Wakeup(s).fired && |Wakeup(s).tasks| == |s.tasks|
    ensures TaskAt(Wakeup(s), t).wait ==
      if RungBy(s, Wakeup(s).fired[|s.fired|..], t) then Awake else s.tasks[t].wait
    decreases |s.timers|
  {
    hide Inv, Fire, Drop;
    WakeupFires(s);
    if s.timers != [] && s.timers[0].expires <= s.now {
      FireKeeps(s);
      FireShortens(s);
      FireWakes(s, t);
      WakeupWakes(Fire(s), t);
      var f := Wakeup(s).fired;
      assert f[|s.fired|..] == [s.timers[0]] + f[|s.fired| + 1..];
      RungFirst(s, Fire(s), s.timers[0], f[|s.fired| + 1..], t);
    } else {
      assert s.fired[|s.fired|..] == [];
    }
  }

  lemma RungFirst(s: System, s1: System, x: Timer, f: seq<Timer>, t: nat)
    requires t < |s.tasks| == |s1.tasks| && TaskAt(s1, t).signals == s.tasks[t].signals
    requires TaskAt(s1, t).wait == if Rings(s, x, t) then Awake else s.tasks[t].wait
    ensures (if RungBy(s1, f, t) then Awake else TaskAt(s1, t).wait) == if RungBy(s, [x] + f, t) then Awake else s.tasks[t].wait
  {
    var l := [x] + f;
    if Rings(s, x, t) {
      assert Rings(s, l[0], t);
    } else {
      forall i | 0 <= i < |f| ensures Rings(s1, f[i], t) == Rings(s, l[i + 1], t) {
      }
      if i :| 0 <= i < |l| && Rings(s, l[i], t) {
        assert Rings(s1, f[i - 1], t);
      }
      if i :| 0 <= i < |f| && Rings(s1, f[i], t) {
        assert Rings(s, l[i + 1], t);
      }
    }
  }

  /** So a timeout that comes due ends the wait, unless something else did before. */
  lemma TimeoutEnds(s: System, x: Timer)
    requires Inv(s) && !Crossed(s) && x in s.timers && x.handler.Timeout? && x.expires <= s.now
    ensures x.task < |s.tasks| && TaskAt(Wakeup(s), x.task).wait.Awake?
  {
    assert TimerOk(s, x);
    WakeupFires(s);
    WakeupFiresAllDue(s);
    WakeupWakes(s, x.task);
    hide Wakeup, Crossed;
    var f := Wakeup(s).fired[|s.fired|..];
    if x in f {
      var i :| 0 <= i < |f| && f[i] == x;
      assert Rings(s, f[i], x.task);
    } else {
      assert x !in Wakeup(s).timers;
      var y :| y in f && Cancels(s, y, x);
      AlarmRings(s, y, x);
      var i :| 0 <= i < |f| && f[i] == y;
      assert Rings(s, f[i], x.task);
    }
  }

  lemma AlarmRings(s: System, y: Timer, x: Timer)
    requires Inv(s) && y in s.timers && x in s.timers && Cancels(s, y, x)
    ensures Rings(s, y, x.task)
  {
  }

  // ---------------------------------------------------------------- fork and exit

  lemma ForkIs(s: System, t: nat)
    requires t < |s.tasks|
    ensures var s' := Fork(s, t);
      |s'.tasks| == |s.tasks| + 1 && TaskAt(s', |s.tasks|) == s.tasks[t] && (forall u: nat :: u < |s.tasks| ==> SameTask(s, s', u)) &&
      s'.timers == s.timers && s'.released == s.released
  {
  }

  /** task_exit: the task is dead, and its timers are released, each once. */
  lemma ExitIs(s: System, t: nat)
    requires Inv(s) && t < |s.tasks| && s.tasks[t].wait.Awake?
    ensures TaskAt(Exit(s, t), t).wait.Dead? && forall u: nat :: u != t ==> SameTask(s, Exit(s, t), u)
    ensures forall y :: y in s.timers && y.task == t ==> y.id in Exit(s, t).released
    ensures NoDup(Exit(s, t).released)
  {
    var s1 := SetTask(s, t, TaskAt(s, t).(wait := Dead));
    SameListOk(s, s1);
    RemoveIs(s1, t);
    ReleasedAll(s1, s.timers, t);
  }

  lemma {:induction false} ReleasedAll(s: System, timers: seq<Timer>, t: nat)
    ensures forall n :: n in s.released ==> n in RemoveOf(s, timers, t).released
    ensures forall y :: y in timers && y.task == t ==> y.id in RemoveOf(s, timers, t).released
    decreases |timers|
  {
    if timers != [] {
      var x := timers[0];
      var s1 := if x.task == t then PutTimer(s, x.id) else s;
      ReleasedAll(s1, timers[1..], t);
      assert timers == [x] + timers[1..];
      assert x.task == t ==> x.id in s1.released;
    }
  }
}
