/** The timer list, the tasks and the drive updated in place, as timer.c, task.c, alarm.c and
    floppy.c do. */
module TimerList {
  import opened Words
  import opened Lists
  import opened Timers

  class Kernel {
    var timers: seq<Timer>
    var tasks: seq<Task>
    var motor: Option<nat>
    var released: seq<nat>
    var fired: seq<Timer>
    var nextId: nat
    var jiffies: u32

    ghost function State(): System
      reads this
    {
      System(timers, tasks, motor, released, fired, nextId, jiffies)
    }

    /** timer_add. */
    method TimerAdd(task: nat, ticks: u32, handler: Handler) returns (id: nat)
      modifies this
      ensures State() == Add(old(State()), task, ticks, handler) && id == old(nextId)
    {
      id := nextId;
      nextId := nextId + 1;
      timers := ListInsertSort(timers, Timer(id, task, Expires(jiffies, ticks), handler), Key);
    }

    /** timer_put. */
    method TimerPut(id: nat)
      modifies this
      ensures State() == PutTimer(old(State()), id)
    {
      timers := Drop(timers, id);
      released := released + [id];
    }

    /** timer_update of a timer on the list. */
    method TimerUpdate(id: nat, ticks: u32)
      requires Find(timers, id).Some?
      modifies this
      ensures State() == Update(old(State()), id, ticks)
    {
      var timer := Find(timers, id).value;
      timers := Drop(timers, id);
      timers := ListInsertSort(timers, timer.(expires := Expires(jiffies, ticks)), Key);
    }

    /** timer_remove: the loop looks at each timer once. */
    method TimerRemove(t: nat)
      modifies this
      ensures State() == Remove(old(State()), t)
    {
      var left := timers;
      while left != []
        invariant RemoveOf(State(), left, t) == Remove(old(State()), t)
        decreases |left|
      {
        if left[0].task == t {
          TimerPut(left[0].id);
        }
        left := left[1..];
      }
    }

    /** sys_alarm of the running task. */
    method SysAlarm(t: nat, ticks: u32)
      requires t < |tasks|
      modifies this
      ensures State() == SetAlarm(old(State()), t, ticks)
    {
      if tasks[t].alarm.Some? {
        TimerPut(tasks[t].alarm.value);
      }
      var id := TimerAdd(t, ticks, Alarm);
      tasks := tasks[t := tasks[t].(alarm := Some(id))];
    }

    /** fd_motor_off for the running task; the drive points to a timer on the list or to none. */
    method FdMotorOff(t: nat, ticks: u32)
      requires motor.Some? ==> Find(timers, motor.value).Some?
      modifies this
      ensures State() == MotorOff(old(State()), t, ticks)
    {
      if motor.None? {
        var id := TimerAdd(t, ticks, Motor);
        motor := Some(id);
      } else {
        TimerUpdate(motor.value, ticks);
      }
    }

    /** task_block of the running task; its assertions, that it is to wait for something and has
        no timeout yet, are the precondition. */
    method TaskBlock(t: nat, wait: Wait, timeout: Option<u32>)
      requires t < |tasks| && tasks[t].timer == None && !wait.Awake?
      modifies this
      ensures State() == Block(old(State()), t, wait, timeout)
    {
      if timeout.Some? {
        var id := TimerAdd(t, timeout.value, Timeout);
        tasks := tasks[t := tasks[t].(timer := Some(id))];
      }
      tasks := tasks[t := tasks[t].(wait := wait)];
    }

    /** task_unblock; `active` is the timer whose handler calls it, if one does. */
    method TaskUnblock(t: nat, active: Option<nat>)
      requires t < |tasks|
      modifies this
      ensures State() ==
        if old(tasks[t].timer).Some? && old(tasks[t].timer) == active then SetTask(old(State()), t, Woken(old(tasks[t])))
        else Unblock(old(State()), t)
    {
      if tasks[t].timer.Some? {
        if tasks[t].timer != active {
          TimerPut(tasks[t].timer.value);
        }
        tasks := tasks[t := tasks[t].(timer := None)];
      }
      tasks := tasks[t := tasks[t].(wait := Awake)];
    }

    /** task_fork, as far as the copy of the PCB is concerned. */
    method TaskFork(t: nat)
      requires t < |tasks|
      modifies this`tasks
      ensures State() == Fork(old(State()), t)
    {
      tasks := tasks + [tasks[t]];
    }

    /** task_exit, as far as timers are concerned. */
    method TaskExit(t: nat)
      requires t < |tasks|
      modifies this
      ensures State() == Exit(old(State()), t)
    {
      tasks := tasks[t := tasks[t].(wait := Dead)];
      TimerRemove(t);
    }

    /** sys_kill for one task; `active` is the timer whose handler calls it. */
    method SysKill(t: nat, active: nat)
      requires t < |tasks| && tasks[t].timer != Some(active)
      modifies this
      ensures State() == Kill(old(State()), t)
    {
      if tasks[t].signals && tasks[t].wait.Sleeping? {
        TaskUnblock(t, Some(active));
      }
    }

    /** timer_expires. */
    method TimerExpires() returns (r: u32)
      ensures r == FirstExpiry(State())
    {
      if timers == [] {
        return NEVER;
      }
      r := timers[0].expires;
    }

    /** timer_wakeup; at tick 2^32 - 1 its condition does not stop it. */
    method TimerWakeup()
      requires Inv(State()) && jiffies != NEVER
      modifies this
      ensures State() == Wakeup(old(State()))
    {
      hide Inv, Fire;
      var first := TimerExpires();
      while first <= jiffies
        invariant Inv(State()) && jiffies == old(jiffies) && first == FirstExpiry(State())
        invariant Wakeup(State()) == Wakeup(old(State()))
        decreases |timers|
      {
        FireKeeps(State());
        FireShortens(State());
        FireOne();
        first := TimerExpires();
      }
    }

    /** One expired timer: its handler, or default_timeout; then timer_put. */
    method FireOne()
      requires Inv(State()) && timers != []
      modifies this
      ensures State() == Fire(old(State()))
    {
      var x := timers[0];
      HolderIs(State(), x);
      fired := fired + [x];
      match x.handler {
        case Timeout =>
          TaskUnblock(x.task, Some(x.id));
        case Alarm =>
          tasks := tasks[x.task := tasks[x.task].(alarm := None)];
          SysKill(x.task, x.id);
        case Motor =>
          motor := None;
      }
      TimerPut(x.id);
    }
  }

  /** Who a timer belongs to; an alarm is nobody's timeout. */
  lemma HolderIs(s: System, x: Timer)
    requires Inv(s) && x in s.timers
    ensures x.task < |s.tasks|
    ensures x.handler.Timeout? ==> s.tasks[x.task].timer == Some(x.id)
    ensures x.handler.Alarm? ==> s.tasks[x.task].timer != Some(x.id)
  {
    assert TimerOk(s, x) && FieldOk(s, x.task, Timeout);
    if x.handler.Alarm? && s.tasks[x.task].timer == Some(x.id) {
      var y :| Named(s, x.task, Timeout, y);
      SameId(s, x, y);
    }
  }
}
