/** Timers, blocking with a timeout, and alarms (src/kernel/timer.c, task_block, task_unblock,
    task_fork and task_exit in src/kernel/task.c, src/kernel/alarm.c, the motor of the floppy
    drive in src/kernel/floppy.c). */
module Timers {
  import opened Words
  import opened Lists

  /** What runs when a timer expires: nothing of its own (default_timeout, the timeout of a
      blocked task), task_alarm, or fd_motor_timeout. */
  datatype Handler = Timeout | Alarm | Motor

  /** timer_t. */
  datatype Timer = Timer(id: nat, task: nat, expires: u32, handler: Handler)

  /** Sleeping stands for TASK_SLEEPING and TASK_WAITING, which a signal ends; Dead for
      TASK_DIED. */
  datatype Wait = Awake | Blocked | Sleeping | Dead

  /** What of task_t matters: what it waits for, the pointers to its timeout and to its alarm, and
      whether sys_kill lets signals through to it. */
  datatype Task = Task(wait: Wait, timer: Option<nat>, alarm: Option<nat>, signals: bool)

  /** `motor` is the pointer to the timer of the floppy drive, `released` are the timers given back
      by timer_put, `fired` those whose time came, in this order; `nextId` numbers the next
      timer, `now` is jiffies. */
  datatype System = System(timers: seq<Timer>, tasks: seq<Task>, motor: Option<nat>,
                           released: seq<nat>, fired: seq<Timer>, nextId: nat, now: u32)

  /** What the list is sorted by: list_insert_sort reads the key as a C int. */
  function Key(t: Timer): int { Signed(t.expires) }

  /** What timer_wakeup compares. */
  function Expiry(t: Timer): int { t.expires }

  /** The timer a pointer points to. */
  function Find(timers: seq<Timer>, id: nat): Option<Timer> {
    if timers == [] then None else if timers[0].id == id then Some(timers[0]) else Find(timers[1..], id)
  }

  /** list_remove of the timer a pointer points to. */
  function Drop(timers: seq<Timer>, id: nat): (r: seq<Timer>)
    ensures |r| <= |timers|
    ensures forall x :: x in r <==> x in timers && x.id != id
  {
    if timers == [] then []
    else
      assert timers == [timers[0]] + timers[1..];
      (if timers[0].id == id then [] else [timers[0]]) + Drop(timers[1..], id)
  }

  function TaskAt(s: System, t: nat): Task {
    if t < |s.tasks| then s.tasks[t] else Task(Awake, None, None, false)
  }

  function SetTask(s: System, t: nat, k: Task): System {
    if t < |s.tasks| then s.(tasks := s.tasks[t := k]) else s
  }

  predicate Waits(k: Task) {
    k.wait.Blocked? || k.wait.Sleeping?
  }

  function Woken(k: Task): Task {
    k.(wait := Awake, timer := None)
  }

  /** The pointer that leads to a timer of this kind, of task t.  Nobody looks at the alarm of a
      dead task. */
  function FieldOf(s: System, t: nat, h: Handler): Option<nat> {
    match h
    case Timeout => TaskAt(s, t).timer
    case Alarm => if TaskAt(s, t).wait.Dead? then None else TaskAt(s, t).alarm
    case Motor => s.motor
  }

  function SetField(s: System, t: nat, h: Handler, id: Option<nat>): System {
    match h
    case Timeout => SetTask(s, t, TaskAt(s, t).(timer := id))
    case Alarm => SetTask(s, t, TaskAt(s, t).(alarm := id))
    case Motor => s.(motor := id)
  }

  // ---------------------------------------------------------------- the operations

  /** timer_expire_jiffies. */
  function Expires(now: u32, ticks: u32): u32 {
    (now + ticks) % 0x1_0000_0000
  }

  /** timer_add, `ticks` from now. */
  function Add(s: System, task: nat, ticks: u32, handler: Handler): System {
    s.(timers := InsertBy(s.timers, Timer(s.nextId, task, Expires(s.now, ticks), handler), Key), nextId := s.nextId + 1)
  }

  /** timer_add, and the pointer set to the new timer. */
  function Install(s: System, t: nat, ticks: u32, h: Handler): System {
    SetField(Add(s, t, ticks, h), t, h, Some(s.nextId))
  }

  /** timer_put: list_remove of the timer, and kfree, whether or not it was freed before. */
  function PutTimer(s: System, id: nat): System {
    s.(timers := Drop(s.timers, id), released := s.released + [id])
  }

  /** timer_update of a timer on the list. */
  function Update(s: System, id: nat, ticks: u32): System {
    var x := Find(s.timers, id);
    if x.None? then s
    else s.(timers := InsertBy(Drop(s.timers, id), x.value.(expires := Expires(s.now, ticks)), Key))
  }

  /** task_block of the running task, with a timeout if there is one. */
  function Block(s: System, t: nat, wait: Wait, timeout: Option<u32>): System {
    var s1 := SetTask(s, t, TaskAt(s, t).(wait := wait));
    if timeout.None? then s1 else Install(s1, t, timeout.value, Timeout)
  }

  /** task_unblock by another task: a timeout still pending is released. */
  function Unblock(s: System, t: nat): System {
    var k := TaskAt(s, t);
    SetTask(if k.timer.Some? then PutTimer(s, k.timer.value) else s, t, Woken(k))
  }

  /** A signal wakes the task. */
  predicate Sleeps(s: System, t: nat) {
    TaskAt(s, t).signals && TaskAt(s, t).wait.Sleeping?
  }

  /** sys_kill, as far as timers are concerned. */
  function Kill(s: System, t: nat): System {
    if Sleeps(s, t) then Unblock(s, t) else s
  }

  /** sys_alarm: the timer that task->alarm leads to, if any, is put back. */
  function SetAlarm(s: System, t: nat, ticks: u32): System {
    var a := TaskAt(s, t).alarm;
    Install(if a.Some? then PutTimer(s, a.value) else s, t, ticks, Alarm)
  }

  /** fd_motor_off: a timer of the running task, or more time for the one there is. */
  function MotorOff(s: System, t: nat, ticks: u32): System {
    if s.motor.None? then Install(s, t, ticks, Motor) else Update(s, s.motor.value, ticks)
  }

  /** task_fork: the child is a copy of the running task, pointers included. */
  function Fork(s: System, t: nat): System {
    s.(tasks := s.tasks + [TaskAt(s, t)])
  }

  /** timer_remove. */
  function RemoveOf(s: System, timers: seq<Timer>, t: nat): System
    decreases |timers|
  {
    if timers == [] then s
    else RemoveOf(if timers[0].task == t then PutTimer(s, timers[0].id) else s, timers[1..], t)
  }

  function Remove(s: System, t: nat): System {
    RemoveOf(s, s.timers, t)
  }

  /** task_exit. */
  function Exit(s: System, t: nat): System {
    Remove(SetTask(s, t, TaskAt(s, t).(wait := Dead)), t)
  }

  /** What runs when the time of x comes: the timer is marked active, so that the task_unblock of
      the default handler leaves it alone. */
  function Handle(s: System, x: Timer): System {
    match x.handler
    case Timeout => SetTask(s, x.task, Woken(TaskAt(s, x.task)))
    case Alarm => Kill(SetField(s, x.task, Alarm, None), x.task)
    case Motor => SetField(s, x.task, Motor, None)
  }

  /** One turn of timer_wakeup: the handler runs, then the timer is put back. */
  function Fire(s: System): System
    requires s.timers != []
  {
    var x := s.timers[0];
    PutTimer(Handle(s.(fired := s.fired + [x]), x), x.id)
  }

  const NEVER: u32 := 0xFFFF_FFFF    // EOF as a u32

  /** timer_expires. */
  function FirstExpiry(s: System): u32 {
    if s.timers == [] then NEVER else s.timers[0].expires
  }

  function Wakeup(s: System): System
    decreases |s.timers|
  {
    if s.timers == [] || s.timers[0].expires > s.now then s
    else FireShortens(s); Wakeup(Fire(s))
  }

  lemma {:induction false} DropShorter(l: seq<Timer>, x: Timer)
    requires x in l
    ensures |Drop(l, x.id)| < |l|
  {
    if l[0].id != x.id { DropShorter(l[1..], x); }
  }

  lemma FireShortens(s: System)
    requires s.timers != []
    ensures |Fire(s).timers| < |s.timers|
  {
    var x := s.timers[0];
    var h := Handle(s.(fired := s.fired + [x]), x);
    assert h.timers == s.timers || exists id :: h.timers == Drop(s.timers, id);
    DropShorter(s.timers, x);
    if x in h.timers { DropShorter(h.timers, x); }
  }

  // ---------------------------------------------------------------- the invariant

  /** Each pending timer is on the list once, and none that is pending was put back. */
  ghost predicate Ids(s: System) {
    DistinctIds(s.timers) && NoDup(s.released) && (forall x :: x in s.timers ==> x.id !in s.released)
  }

  ghost predicate DistinctIds(l: seq<Timer>) {
    forall i, j :: 0 <= i < j < |l| ==> l[i].id != l[j].id
  }

  /** Timer number n is pending or released, one of them, once it was made. */
  ghost predicate IdOk(s: System, n: nat) {
    n < s.nextId <==> Pending(s, n) || n in s.released
  }

  ghost predicate Pending(s: System, n: nat) {
    exists x :: x in s.timers && x.id == n
  }

  ghost predicate ListOk(s: System) {
    SortedBy(s.timers, Key) && Ids(s) && forall n :: IdOk(s, n)
  }

  /** The pointer of its kind leads to each pending timer; a timeout belongs to a task that waits. */
  ghost predicate TimerOk(s: System, x: Timer) {
    x in s.timers ==>
      x.task < |s.tasks| && FieldOf(s, x.task, x.handler) == Some(x.id) &&
      (x.handler.Timeout? ==> Waits(TaskAt(s, x.task)))
  }

  /** A pointer leads to a pending timer of its task and kind. */
  ghost predicate FieldOk(s: System, t: nat, h: Handler) {
    FieldOf(s, t, h).Some? ==> exists x :: Named(s, t, h, x)
  }

  ghost predicate Named(s: System, t: nat, h: Handler, x: Timer) {
    x in s.timers && Some(x.id) == FieldOf(s, t, h) && x.handler == h && (h.Motor? || x.task == t)
  }

  ghost predicate Inv(s: System) {
    ListOk(s) && (forall x :: TimerOk(s, x)) && forall t, h :: FieldOk(s, t, h)
  }

  // ---------------------------------------------------------------- the list

  lemma {:induction false} DropSorted(l: seq<Timer>, id: nat)
    requires SortedBy(l, Key)
    ensures SortedBy(Drop(l, id), Key)
  {
    if l != [] {
      var r := Drop(l[1..], id);
      DropSorted(l[1..], id);
      forall j | 0 <= j < |r| ensures Key(l[0]) <= Key(r[j]) {
        assert r[j] in l[1..];
        var i :| 0 <= i < |l[1..]| && l[1..][i] == r[j];
        assert Key(l[0]) <= Key(l[i + 1]);
      }
    }
  }

  lemma {:induction false} DropDistinct(l: seq<Timer>, id: nat)
    requires DistinctIds(l)
    ensures DistinctIds(Drop(l, id))
  {
    if l != [] {
      var r := Drop(l[1..], id);
      DropDistinct(l[1..], id);
      forall j | 0 <= j < |r| ensures l[0].id != r[j].id {
        assert r[j] in l[1..];
        var i :| 0 <= i < |l[1..]| && l[1..][i] == r[j];
        assert l[0].id != l[i + 1].id;
      }
    }
  }

  lemma {:induction false} DropTwice(l: seq<Timer>, a: nat, b: nat)
    ensures Drop(Drop(l, a), b) == Drop(Drop(l, b), a)
  {
    if l != [] {
      DropTwice(l[1..], a, b);
      DropFront(l[0], Drop(l[1..], a), b);
      DropFront(l[0], Drop(l[1..], b), a);
    }
  }

  lemma DropFront(x: Timer, l: seq<Timer>, id: nat)
    ensures Drop([x] + l, id) == (if x.id == id then [] else [x]) + Drop(l, id) && Drop([] + l, id) == Drop(l, id)
  {
    assert ([x] + l)[1..] == l && [] + l == l;
  }

  /** Two timers of the list with one number are the same. */
  lemma SameId(s: System, x: Timer, y: Timer)
    requires Ids(s) && x in s.timers && y in s.timers && x.id == y.id
    ensures x == y
  {
    var i :| 0 <= i < |s.timers| && s.timers[i] == x;
    var j :| 0 <= j < |s.timers| && s.timers[j] == y;
    assert i == j;
  }

  lemma {:induction false} FindFinds(timers: seq<Timer>, x: Timer)
    requires DistinctIds(timers) && x in timers
    ensures Find(timers, x.id) == Some(x)
  {
    if timers[0] != x {
      var i :| 0 <= i < |timers| && timers[i] == x;
      assert timers[1..][i - 1] == x;
      FindFinds(timers[1..], x);
    }
  }

  /** timer_put takes exactly this timer, and puts back none twice. */
  lemma PutKeeps(s: System, x: Timer)
    requires ListOk(s) && x in s.timers
    ensures ListOk(PutTimer(s, x.id))
  {
    var s' := PutTimer(s, x.id);
    DropSorted(s.timers, x.id);
    DropDistinct(s.timers, x.id);
    forall n: nat ensures IdOk(s', n) {
      assert IdOk(s, n);
      if n != x.id {
        assert Pending(s', n) <==> Pending(s, n);
      } else {
        assert n in s'.released;
      }
    }
  }

  lemma AddKeeps(s: System, task: nat, ticks: u32, handler: Handler)
    requires ListOk(s)
    ensures ListOk(Add(s, task, ticks, handler))
    ensures forall y :: y in Add(s, task, ticks, handler).timers <==> y in s.timers || y == Timer(s.nextId, task, Expires(s.now, ticks), handler)
    ensures forall y :: y in s.timers ==> y.id != s.nextId
  {
    hide InsertBy;
    var x := Timer(s.nextId, task, Expires(s.now, ticks), handler);
    var s' := Add(s, task, ticks, handler);
    InsertBySorts(s.timers, x, Key);
    InsertByHolds(s.timers, x, Key);
    assert IdOk(s, s.nextId);
    forall y | y in s.timers ensures y.id != s.nextId {
      assert Pending(s, y.id);
    }
    var p := InsertByAt(s.timers, x, Key);
    InsertedDistinct(s.timers, x, p);
    forall n: nat ensures IdOk(s', n) {
      assert IdOk(s, n);
      if n == s.nextId {
        assert x in s'.timers;
      } else {
        assert Pending(s', n) <==> Pending(s, n);
      }
    }
    forall y | y in s'.timers ensures y.id !in s'.released {
    }
  }

  lemma InsertedDistinct(l: seq<Timer>, x: Timer, p: nat)
    requires DistinctIds(l) && p <= |l| && forall y :: y in l ==> y.id != x.id
    ensures DistinctIds(l[..p] + [x] + l[p..])
  {
  }

  lemma SameListOk(s: System, s': System)
    requires ListOk(s) && s'.timers == s.timers && s'.nextId == s.nextId
    requires NoDup(s'.released) && forall n :: n in s'.released <==> n in s.released
    ensures ListOk(s')
  {
    forall n: nat ensures IdOk(s', n) {
      assert IdOk(s, n);
      assert Pending(s', n) == Pending(s, n);
    }
  }

  /** The invariant looks at neither the clock, nor the log of what fired, nor the order in which
      timers were put back. */
  lemma SameKeeps(s: System, s': System)
    requires Inv(s) && s'.timers == s.timers && s'.tasks == s.tasks && s'.motor == s.motor && s'.nextId == s.nextId
    requires NoDup(s'.released) && forall n :: n in s'.released <==> n in s.released
    ensures Inv(s')
  {
    SameListOk(s, s');
    forall y ensures TimerOk(s', y) {
      assert TimerOk(s, y);
    }
    forall u: nat, h ensures FieldOk(s', u, h) {
      FieldStays(s, s', u, h);
    }
  }

  /** A pointer that did not change, to a timer that is still there. */
  lemma FieldStays(s: System, s': System, t: nat, h: Handler)
    requires FieldOk(s, t, h) && FieldOf(s', t, h) == FieldOf(s, t, h)
    requires forall x :: Named(s, t, h, x) ==> x in s'.timers
    ensures FieldOk(s', t, h)
  {
    if FieldOf(s, t, h).Some? {
      var x :| Named(s, t, h, x);
      assert Named(s', t, h, x);
    }
  }

  // ---------------------------------------------------------------- timers made and put back

  /** A pointer that names nothing gets a new timer; a task that is to have a timeout waits. */
  lemma InstallKeeps(s: System, t: nat, ticks: u32, h: Handler)
    requires Inv(s) && t < |s.tasks| && FieldOf(s, t, h) == None && !s.tasks[t].wait.Dead?
    requires h.Timeout? ==> Waits(s.tasks[t])
    ensures Inv(Install(s, t, ticks, h))
    ensures forall y :: y in Install(s, t, ticks, h).timers <==> y in s.timers || y == Timer(s.nextId, t, Expires(s.now, ticks), h)
  {
    var x := Timer(s.nextId, t, Expires(s.now, ticks), h);
    var a, s' := Add(s, t, ticks, h), Install(s, t, ticks, h);
    AddKeeps(s, t, ticks, h);
    SameListOk(a, s');
    forall y ensures TimerOk(s', y) {
      assert TimerOk(s, y);
    }
    forall u: nat, g ensures FieldOk(s', u, g) {
      if g == h && (u == t || h.Motor?) {
        assert Named(s', u, g, x);
      } else {
        assert FieldOk(s, u, g);
        FieldStays(s, s', u, g);
      }
    }
  }

  /** The pointer to a timer cleared; the task whose timeout it was is awake. */
  function Cleared(s: System, x: Timer): System {
    if x.handler.Timeout? then SetTask(s, x.task, Woken(TaskAt(s, x.task))) else SetField(s, x.task, x.handler, None)
  }

  lemma ClearedFields(s: System, x: Timer, t: nat, h: Handler)
    requires Inv(s) && x in s.timers
    ensures FieldOf(Cleared(s, x), t, h) == if h == x.handler && (t == x.task || h.Motor?) then None else FieldOf(s, t, h)
  {
    assert TimerOk(s, x);
  }

  /** A timer put back and its pointer cleared. */
  lemma DropKeeps(s: System, x: Timer)
    requires Inv(s) && x in s.timers
    ensures Inv(PutTimer(Cleared(s, x), x.id))
  {
    hide Cleared, Drop, FieldOf, ListOk;
    var c := Cleared(s, x);
    var s' := PutTimer(c, x.id);
    ClearedIs(s, x);
    SameListOk(s, c) by { ListIds(s); }
    PutKeeps(c, x);
    forall y ensures TimerOk(s', y) {
      ClearedTimer(s, x, y);
    }
    forall u: nat, h ensures FieldOk(s', u, h) {
      ClearedField(s, x, u, h);
    }
  }

  lemma ListIds(s: System)
    requires ListOk(s)
    ensures NoDup(s.released)
  {
  }

  lemma ClearedIs(s: System, x: Timer)
    ensures var c := Cleared(s, x);
      c.timers == s.timers && c.released == s.released && c.nextId == s.nextId && c.now == s.now && c.fired == s.fired && |c.tasks| == |s.tasks|
  {
  }

  lemma ClearedTimer(s: System, x: Timer, y: Timer)
    requires Inv(s) && x in s.timers
    ensures TimerOk(PutTimer(Cleared(s, x), x.id), y)
  {
    assert TimerOk(s, x) && TimerOk(s, y);
    if y in s.timers && y.id != x.id {
      ClearedFields(s, x, y.task, y.handler);
    }
  }

  lemma ClearedField(s: System, x: Timer, t: nat, h: Handler)
    requires Inv(s) && x in s.timers
    ensures FieldOk(PutTimer(Cleared(s, x), x.id), t, h)
  {
    var s' := PutTimer(Cleared(s, x), x.id);
    ClearedFields(s, x, t, h);
    assert FieldOf(s', t, h) == FieldOf(Cleared(s, x), t, h);
    assert FieldOk(s, t, h);
    if FieldOf(s', t, h).Some? {
      var y :| Named(s, t, h, y);
      if y.id == x.id { SameId(s, x, y); }
      assert Named(s', t, h, y);
    }
  }

  // ---------------------------------------------------------------- block, unblock

  lemma TimeoutWaits(s: System, t: nat)
    requires Inv(s)
    ensures TaskAt(s, t).timer.Some? ==> Waits(TaskAt(s, t))
  {
    assert FieldOk(s, t, Timeout);
    if TaskAt(s, t).timer.Some? {
      var x :| Named(s, t, Timeout, x);
      assert TimerOk(s, x);
    }
  }

  /** A task that is awake has no timeout: the assertion of task_block holds. */
  lemma BlockKeeps(s: System, t: nat, wait: Wait, timeout: Option<u32>)
    requires Inv(s) && t < |s.tasks| && s.tasks[t].wait.Awake? && (wait.Blocked? || wait.Sleeping?)
    ensures Inv(Block(s, t, wait, timeout)) && s.tasks[t].timer == None
  {
    var s1 := SetTask(s, t, TaskAt(s, t).(wait := wait));
    TimeoutWaits(s, t);
    SameListOk(s, s1);
    forall y ensures TimerOk(s1, y) {
      assert TimerOk(s, y);
    }
    forall u: nat, h ensures FieldOk(s1, u, h) {
      assert FieldOk(s, u, h);
      FieldStays(s, s1, u, h);
    }
    if timeout.Some? {
      InstallKeeps(s1, t, timeout.value, Timeout);
    }
  }

  lemma UnblockKeeps(s: System, t: nat)
    requires Inv(s) && t < |s.tasks| && !s.tasks[t].wait.Dead?
    ensures Inv(Unblock(s, t)) && TaskAt(Unblock(s, t), t).wait.Awake?
    ensures Unblock(s, t).released == s.released + if s.tasks[t].timer.Some? then [s.tasks[t].timer.value] else []
    ensures forall y :: y in Unblock(s, t).timers <==> y in s.timers && !(y.handler.Timeout? && y.task == t)
  {
    assert FieldOk(s, t, Timeout);
    if s.tasks[t].timer.Some? {
      var x :| Named(s, t, Timeout, x);
      DropKeeps(s, x);
      forall z | z in s.timers && z.handler.Timeout? && z.task == t ensures z == x {
        assert TimerOk(s, z);
        SameId(s, x, z);
      }
    } else {
      forall z | z in s.timers && z.handler.Timeout? ensures z.task != t {
        assert TimerOk(s, z);
      }
      var s' := Unblock(s, t);
      SameListOk(s, s');
      forall y ensures TimerOk(s', y) {
        assert TimerOk(s, y);
      }
      forall u: nat, h ensures FieldOk(s', u, h) {
        assert FieldOk(s, u, h);
        FieldStays(s, s', u, h);
      }
    }
  }

  lemma KillKeeps(s: System, t: nat)
    requires Inv(s)
    ensures var s' := Kill(s, t);
      Inv(s') && s'.now == s.now && s'.fired == s.fired && forall y :: y in s'.timers ==> y in s.timers
    ensures forall y :: y in s.timers ==> y in Kill(s, t).timers || (y.handler.Timeout? && y.task == t && Sleeps(s, t))
  {
    if Sleeps(s, t) {
      UnblockKeeps(s, t);
    }
  }

  // ---------------------------------------------------------------- alarms and the motor

  /** After sys_alarm exactly one alarm of the task is pending, the new one. */
  lemma SetAlarmKeeps(s: System, t: nat, ticks: u32)
    requires Inv(s) && t < |s.tasks| && s.tasks[t].wait.Awake?
    ensures var s' := SetAlarm(s, t, ticks);
      Inv(s') && forall x :: x in s'.timers && x.handler.Alarm? && x.task == t <==> x == Timer(s.nextId, t, Expires(s.now, ticks), Alarm)
  {
    var a, new_ := s.tasks[t].alarm, Timer(s.nextId, t, Expires(s.now, ticks), Alarm);
    assert FieldOk(s, t, Alarm);
    forall y | y in s.timers && y.handler.Alarm? && y.task == t ensures a == Some(y.id) {
      assert TimerOk(s, y);
    }
    if a.Some? {
      var x :| Named(s, t, Alarm, x);
      DropKeeps(s, x);
      var c := PutTimer(Cleared(s, x), x.id);
      InstallKeeps(c, t, ticks, Alarm);
      assert Install(c, t, ticks, Alarm) == SetAlarm(s, t, ticks);
    } else {
      InstallKeeps(s, t, ticks, Alarm);
    }
  }

  lemma UpdateList(s: System, x: Timer, ticks: u32)
    requires ListOk(s) && x in s.timers
    ensures var s', x' := Update(s, x.id, ticks), x.(expires := Expires(s.now, ticks));
      ListOk(s') && s' == s.(timers := s'.timers) &&
      forall y :: y in s'.timers <==> y == x' || (y in s.timers && y.id != x.id)
  {
    FindFinds(s.timers, x);
    hide InsertBy, Drop, IdOk;
    var s', r, x' := Update(s, x.id, ticks), Drop(s.timers, x.id), x.(expires := Expires(s.now, ticks));
    DropSorted(s.timers, x.id);
    DropDistinct(s.timers, x.id);
    InsertBySorts(r, x', Key);
    InsertByHolds(r, x', Key);
    var p := InsertByAt(r, x', Key);
    InsertedDistinct(r, x', p);
    UpdatePending(s, s', x, x');
  }

  lemma UpdatePending(s: System, s': System, x: Timer, x': Timer)
    requires ListOk(s) && x in s.timers && x'.id == x.id && s'.released == s.released && s'.nextId == s.nextId
    requires forall y :: y in s'.timers <==> y == x' || (y in s.timers && y.id != x.id)
    ensures forall n :: IdOk(s', n)
    ensures forall y :: y in s'.timers ==> y.id !in s'.released
  {
    forall n: nat ensures IdOk(s', n) {
      assert IdOk(s, n);
      if Pending(s, n) {
        var y :| y in s.timers && y.id == n;
        assert (if y.id == x.id then x' else y) in s'.timers;
      }
    }
  }

  /** timer_update leaves the timer the same one, at its new place. */
  lemma UpdateKeeps(s: System, x: Timer, ticks: u32)
    requires Inv(s) && x in s.timers
    ensures Inv(Update(s, x.id, ticks))
  {
    var s', x' := Update(s, x.id, ticks), x.(expires := Expires(s.now, ticks));
    UpdateList(s, x, ticks);
    hide Update, ListOk;
    forall y ensures TimerOk(s', y) {
      assert TimerOk(s, if y == x' then x else y);
    }
    forall t: nat, h ensures FieldOk(s', t, h) {
      assert FieldOk(s, t, h);
      if FieldOf(s, t, h).Some? {
        var y :| Named(s, t, h, y);
        if y.id == x.id { OnlyOne(s, x, y); }
        assert Named(s', t, h, if y == x then x' else y);
      }
    }
  }

  lemma OnlyOne(s: System, x: Timer, y: Timer)
    requires ListOk(s) && x in s.timers && y in s.timers && x.id == y.id
    ensures x == y
  {
    SameId(s, x, y);
  }

  lemma MotorOffKeeps(s: System, t: nat, ticks: u32)
    requires Inv(s) && t < |s.tasks| && s.tasks[t].wait.Awake?
    ensures Inv(MotorOff(s, t, ticks))
    ensures exists x :: x in MotorOff(s, t, ticks).timers && x.handler.Motor? && x.expires == Expires(s.now, ticks)
  {
    assert FieldOk(s, t, Motor);
    if s.motor.Some? {
      var x :| Named(s, t, Motor, x);
      UpdateKeeps(s, x, ticks);
      UpdateList(s, x, ticks);
      assert x.(expires := Expires(s.now, ticks)) in MotorOff(s, t, ticks).timers;
    } else {
      InstallKeeps(s, t, ticks, Motor);
      assert Timer(s.nextId, t, Expires(s.now, ticks), Motor) in MotorOff(s, t, ticks).timers;
    }
  }

  // ---------------------------------------------------------------- fork, exit

  /** task_fork copies the pointer to the alarm too: every timer keeps its one owner exactly when
      the task that forks has no alarm set. */
  lemma ForkKeeps(s: System, t: nat)
    requires Inv(s) && t < |s.tasks| && s.tasks[t].wait.Awake?
    ensures Inv(Fork(s, t)) <==> s.tasks[t].alarm == None
  {
    var s', c := Fork(s, t), |s.tasks|;
    TimeoutWaits(s, t);
    SameListOk(s, s');
    forall y ensures TimerOk(s', y) {
      assert TimerOk(s, y);
    }
    forall u: nat, h: Handler | u != c || !h.Alarm? ensures FieldOk(s', u, h) {
      assert FieldOk(s, u, h);
      FieldStays(s, s', u, h);
    }
    if s.tasks[t].alarm.Some? {
      forall x ensures !Named(s', c, Alarm, x) {
        assert TimerOk(s, x);
      }
      assert !FieldOk(s', c, Alarm);
    } else {
      assert FieldOf(s', c, Alarm) == None && FieldOk(s', c, Alarm);
    }
  }

  lemma {:induction false} RemoveOfKeeps(s: System, timers: seq<Timer>, t: nat)
    requires ListOk(s) && DistinctIds(timers) && forall y :: y in timers ==> y in s.timers
    ensures var s' := RemoveOf(s, timers, t);
      ListOk(s') && s' == s.(timers := s'.timers, released := s'.released) &&
      forall y :: y in s'.timers <==> y in s.timers && !(y in timers && y.task == t)
    decreases |timers|
  {
    hide Drop;
    if timers != [] {
      var x := timers[0];
      assert x in s.timers && timers == [x] + timers[1..];
      if x.task == t {
        PutKeeps(s, x);
        forall y | y in timers[1..] ensures y in PutTimer(s, x.id).timers {
          var i :| 0 <= i < |timers[1..]| && timers[1..][i] == y;
          assert timers[i + 1].id != x.id;
        }
        forall y | y in s.timers ensures y in PutTimer(s, x.id).timers <==> y != x {
          if y.id == x.id { OnlyOne(s, x, y); }
        }
        RemoveOfKeeps(PutTimer(s, x.id), timers[1..], t);
      } else {
        RemoveOfKeeps(s, timers[1..], t);
      }
    }
  }

  /** timer_remove takes exactly the timers of one task. */
  lemma RemoveIs(s: System, t: nat)
    requires ListOk(s)
    ensures var s' := Remove(s, t);
      ListOk(s') && s' == s.(timers := s'.timers, released := s'.released) &&
      forall y :: y in s'.timers <==> y in s.timers && y.task != t
  {
    RemoveOfKeeps(s, s.timers, t);
  }

  /** The timer of the motor belongs to the task that read or wrote the drive last without one. */
  ghost predicate OwnsMotor(s: System, t: nat) {
    exists x :: x in s.timers && x.task == t && x.handler.Motor?
  }

  /** task_exit takes all timers of the task; the drive goes on pointing to one of them if the
      timer of its motor is among them. */
  lemma ExitKeeps(s: System, t: nat)
    requires Inv(s) && t < |s.tasks| && s.tasks[t].wait.Awake?
    ensures Inv(Exit(s, t)) <==> !OwnsMotor(s, t)
    ensures forall y :: y in Exit(s, t).timers <==> y in s.timers && y.task != t
  {
    var s1, s' := SetTask(s, t, TaskAt(s, t).(wait := Dead)), Exit(s, t);
    SameListOk(s, s1);
    RemoveIs(s1, t);
    hide Remove, ListOk;
    if OwnsMotor(s, t) {
      var x :| x in s.timers && x.task == t && x.handler.Motor?;
      assert TimerOk(s, x) && s'.motor == Some(x.id);
      forall y ensures !Named(s', t, Motor, y) {
        if y in s.timers && y.id == x.id { OnlyOne(s, x, y); }
      }
      assert !FieldOk(s', t, Motor);
    } else {
      forall y ensures TimerOk(s', y) {
        assert TimerOk(s, y);
      }
      forall u: nat, h ensures FieldOk(s', u, h) {
        ExitField(s, s', t, u, h);
      }
    }
  }

  lemma ExitField(s: System, s': System, t: nat, u: nat, h: Handler)
    requires Inv(s) && t < |s.tasks| && s.tasks[t].wait.Awake? && !OwnsMotor(s, t)
    requires s'.tasks == s.tasks[t := s.tasks[t].(wait := Dead)] && s'.motor == s.motor
    requires forall y :: y in s'.timers <==> y in s.timers && y.task != t
    ensures FieldOk(s', u, h)
  {
    assert FieldOk(s, u, h);
    if FieldOf(s', u, h).Some? {
      var x :| Named(s, u, h, x);
      assert TimerOk(s, x);
      assert x in s'.timers && Named(s', u, h, x);
    }
  }

  // ---------------------------------------------------------------- timer_wakeup

  /** y is the timeout of the task whose alarm x is, and x ends the sleep of that task. */
  predicate Cancels(s: System, x: Timer, y: Timer) {
    x.handler.Alarm? && y.handler.Timeout? && y.task == x.task && Sleeps(s, x.task)
  }

  /** task_alarm wakes the task before its own timer is put back.  But for the order in which two
      timers are put back it comes to the same. */
  lemma AlarmSwaps(s: System, x: Timer)
    requires x.handler.Alarm?
    ensures var b, s' := Kill(PutTimer(Cleared(s, x), x.id), x.task), PutTimer(Handle(s, x), x.id);
      s'.timers == b.timers && s'.tasks == b.tasks && s'.motor == b.motor && s'.nextId == b.nextId &&
      s'.now == s.now && s'.fired == s.fired && Swapped(b.released, s'.released)
  {
    var timer := TaskAt(Cleared(s, x), x.task).timer;
    if timer.Some? { DropTwice(s.timers, timer.value, x.id); }
    hide Drop;
    var b, s' := Kill(PutTimer(Cleared(s, x), x.id), x.task), PutTimer(Handle(s, x), x.id);
    if timer.Some? && b.released != s'.released {
      assert SwappedAt(b.released, s'.released, s.released, x.id, timer.value);
    }
  }

  /** The same, but perhaps for the order of the last two. */
  ghost predicate Swapped(a: seq<nat>, b: seq<nat>) {
    a == b || exists r: seq<nat>, m: nat, n: nat :: SwappedAt(a, b, r, m, n)
  }

  predicate SwappedAt(a: seq<nat>, b: seq<nat>, r: seq<nat>, m: nat, n: nat) {
    a == r + [m] + [n] && b == r + [n] + [m]
  }

  lemma SwappedHolds(a: seq<nat>, b: seq<nat>)
    requires Swapped(a, b) && NoDup(a)
    ensures NoDup(b) && forall n :: n in b <==> n in a
  {
    if a != b {
      var r: seq<nat>, m: nat, n: nat :| SwappedAt(a, b, r, m, n);
      forall i | 0 <= i < |r| ensures a[i] == r[i] == b[i] {
      }
      assert a[|r|] == m && a[|r| + 1] == n;
    }
  }

  lemma AlarmKeeps(s: System, x: Timer)
    requires Inv(s) && x in s.timers && x.handler.Alarm?
    ensures var s' := PutTimer(Handle(s, x), x.id);
      Inv(s') && s'.now == s.now && s'.fired == s.fired &&
      (forall y :: y in s'.timers ==> y in s.timers && y != x) &&
      forall y :: y in s.timers && y != x ==> y in s'.timers || Cancels(s, x, y)
  {
    var a := PutTimer(Cleared(s, x), x.id);
    DropKeeps(s, x);
    KillKeeps(a, x.task);
    AlarmSwaps(s, x);
    ListIds(Kill(a, x.task));
    SwappedHolds(Kill(a, x.task).released, PutTimer(Handle(s, x), x.id).released);
    SameKeeps(Kill(a, x.task), PutTimer(Handle(s, x), x.id));
    OthersStay(s, x);
    hide Inv, Drop, Kill, Handle;
  }

  lemma OthersStay(s: System, x: Timer)
    requires Inv(s) && x in s.timers
    ensures forall y :: y in PutTimer(Cleared(s, x), x.id).timers <==> y in s.timers && y != x
  {
    forall y | y in s.timers && y.id == x.id ensures y == x {
      SameId(s, x, y);
    }
  }

  lemma HandleKeeps(s: System, x: Timer)
    requires Inv(s) && x in s.timers
    ensures var s' := PutTimer(Handle(s, x), x.id);
      Inv(s') && s'.now == s.now && s'.fired == s.fired &&
      (forall y :: y in s'.timers ==> y in s.timers && y != x) &&
      forall y :: y in s.timers && y != x ==> y in s'.timers || Cancels(s, x, y)
  {
    if x.handler.Alarm? {
      AlarmKeeps(s, x);
    } else {
      DropKeeps(s, x);
      OthersStay(s, x);
    }
  }

  /** One turn: the first timer of the list goes, and if it is an alarm perhaps a timeout. */
  lemma FireKeeps(s: System)
    requires Inv(s) && s.timers != []
    ensures Inv(Fire(s)) && Fire(s).now == s.now && Fire(s).fired == s.fired + [s.timers[0]]
    ensures forall y :: y in Fire(s).timers ==> y in s.timers && y != s.timers[0]
    ensures forall y :: y in s.timers ==> y == s.timers[0] || y in Fire(s).timers || Cancels(s, s.timers[0], y)
  {
    var x := s.timers[0];
    var s1 := s.(fired := s.fired + [x]);
    assert ListOk(s);
    SameKeeps(s, s1);
    hide Inv, Handle;
    HandleKeeps(s1, x);
  }

  /** `f` fired in s, one after the other, and left the list l. */
  ghost predicate FiredFrom(s: System, f: seq<Timer>, l: seq<Timer>) {
    SortedBy(f, Key) &&
    (forall x :: x in f ==> x in s.timers && x.expires <= s.now) &&
    (forall x :: x in l ==> x in s.timers && x !in f) &&
    (forall x, y :: x in f && y in l ==> Key(x) <= Key(y)) &&
    forall y :: y in s.timers ==> y in f || y in l || exists x :: x in f && Cancels(s, x, y)
  }

  /** Nobody falls asleep when a timer fires. */
  lemma FireSleeps(s: System, t: nat)
    requires s.timers != []
    ensures Sleeps(Fire(s), t) ==> Sleeps(s, t)
  {
  }

  lemma FiredNext(s: System, f: seq<Timer>, l: seq<Timer>)
    requires Inv(s) && s.timers != [] && s.timers[0].expires <= s.now && FiredFrom(Fire(s), f, l)
    ensures FiredFrom(s, [s.timers[0]] + f, l)
  {
    FireKeeps(s);
    hide Inv, Fire, Cancels, SortedBy, Key;
    var h := s.timers[0];
    forall x | x in s.timers ensures Key(h) <= Key(x) {
      HeadLeast(s, x);
    }
    FirstSorted(h, f);
    assert forall x :: x in [h] + f <==> x == h || x in f;
    forall y | y in s.timers && y !in [h] + f && y !in l ensures exists x :: x in [h] + f && Cancels(s, x, y) {
      CancelledNext(s, f, y);
    }
  }

  lemma FirstSorted(h: Timer, f: seq<Timer>)
    requires SortedBy(f, Key) && forall x :: x in f ==> Key(h) <= Key(x)
    ensures SortedBy([h] + f, Key)
  {
  }

  lemma CancelledNext(s: System, f: seq<Timer>, y: Timer)
    requires s.timers != [] && (Cancels(s, s.timers[0], y) || exists x :: x in f && Cancels(Fire(s), x, y))
    ensures exists x :: x in [s.timers[0]] + f && Cancels(s, x, y)
  {
    hide Fire;
    var h := s.timers[0];
    if Cancels(s, h, y) {
      assert h in [h] + f;
    } else {
      var x :| x in f && Cancels(Fire(s), x, y);
      FireSleeps(s, x.task);
      assert x in [h] + f;
    }
  }

  lemma HeadLeast(s: System, x: Timer)
    requires Inv(s) && x in s.timers
    ensures Key(s.timers[0]) <= Key(x)
  {
    var i :| 0 <= i < |s.timers| && s.timers[i] == x;
  }

  /** timer_wakeup ends; it fires timers from the front of the list that are due, until the
      first is not. */
  lemma {:induction false} WakeupFires(s: System)
    requires Inv(s)
    ensures var s' := Wakeup(s);
      Inv(s') && s'.now == s.now && (s'.timers == [] || s'.timers[0].expires > s.now) &&
      s.fired <= s'.fired && FiredFrom(s, s'.fired[|s.fired|..], s'.timers)
    decreases |s.timers|
  {
    hide Inv, Fire, FiredFrom;
    if s.timers != [] && s.timers[0].expires <= s.now {
      FireKeeps(s);
      FireShortens(s);
      WakeupFires(Fire(s));
      var f := Wakeup(s).fired;
      FiredNext(s, f[|s.fired| + 1..], Wakeup(s).timers);
      assert f[|s.fired|..] == [s.timers[0]] + f[|s.fired| + 1..];
    } else {
      FiredNone(s);
      assert s.fired[|s.fired|..] == [];
    }
  }

  lemma FiredNone(s: System)
    ensures FiredFrom(s, [], s.timers)
  {
  }

  // ---------------------------------------------------------------- the order of the list

  /** On which side of 2^31 the timer expires. */
  predicate High(x: Timer) {
    x.expires >= 0x8000_0000
  }

  /** In a sorted list what has the smaller key comes first. */
  lemma ComesFirst(l: seq<Timer>, x: Timer, y: Timer) returns (i: nat, j: nat)
    requires SortedBy(l, Key) && x in l && y in l && Key(x) < Key(y)
    ensures i < j < |l| && l[i] == x && l[j] == y
  {
    i :| 0 <= i < |l| && l[i] == x;
    j :| 0 <= j < |l| && l[j] == y;
    var a, b := if j < i then j else i, if j < i then i else j;
    assert Key(l[a]) <= Key(l[b]);
  }

  ghost predicate Straddles(l: seq<Timer>) {
    exists x, y :: x in l && y in l && High(x) && !High(y)
  }

  /** The list is in the order of expiry exactly when no two timers expire on opposite sides
      of 2^31: the key is read as a C int. */
  lemma ListIsInOrder(l: seq<Timer>)
    requires SortedBy(l, Key)
    ensures SortedBy(l, Expiry) <==> !Straddles(l)
  {
    if Straddles(l) {
      var x, y :| x in l && y in l && High(x) && !High(y);
      var i, j := ComesFirst(l, x, y);
      assert Expiry(l[i]) > Expiry(l[j]);
    } else {
      forall i, j | 0 <= i < j < |l| ensures Expiry(l[i]) <= Expiry(l[j]) {
        assert Key(l[i]) <= Key(l[j]) && l[i] in l && l[j] in l;
      }
    }
  }

  /** A timer that expires from 2^31 on stands in front of one that is due and expires below. */
  ghost predicate Crossed(s: System) {
    exists x, y :: CrossedBy(s, x, y)
  }

  predicate CrossedBy(s: System, x: Timer, y: Timer) {
    x in s.timers && y in s.timers && High(x) && !High(y) && y.expires <= s.now
  }

  ghost predicate NoneDue(l: seq<Timer>, now: u32) {
    forall x :: x in l ==> x.expires > now
  }

  /** What timer_wakeup is for: what was due and was not cancelled has fired, in the order of
      expiry, and none that is due remains. */
  ghost predicate OnTime(s: System) {
    var s' := Wakeup(s);
    s.fired <= s'.fired && SortedBy(s'.fired[|s.fired|..], Expiry) && NoneDue(s'.timers, s.now)
  }

  lemma FiredInOrder(s: System, f: seq<Timer>, l: seq<Timer>)
    requires FiredFrom(s, f, l) && SortedBy(l, Key) && (l == [] || l[0].expires > s.now) && !Crossed(s)
    ensures SortedBy(f, Expiry) && NoneDue(l, s.now)
  {
    forall y | y in l ensures y.expires > s.now {
      var i :| 0 <= i < |l| && l[i] == y;
      assert l[0] in l && Key(l[0]) <= Key(l[i]);
      assert !CrossedBy(s, l[0], y);
    }
    forall i, j | 0 <= i < j < |f| ensures Expiry(f[i]) <= Expiry(f[j]) {
      assert Key(f[i]) <= Key(f[j]) && f[i] in f && f[j] in f;
      assert !CrossedBy(s, f[i], f[j]);
    }
  }

  lemma FiredOutOfOrder(s: System, f: seq<Timer>, l: seq<Timer>, x: Timer, y: Timer)
    requires FiredFrom(s, f, l) && (forall a :: a in f ==> !a.handler.Alarm?) && CrossedBy(s, x, y)
    ensures !(SortedBy(f, Expiry) && NoneDue(l, s.now))
  {
    assert Key(x) < Key(y);
    if y !in l {
      assert y in f && x in f;
      var i, j := ComesFirst(f, x, y);
      assert Expiry(f[i]) > Expiry(f[j]);
    }
  }

  lemma WakeupFiresAllDue(s: System)
    requires Inv(s) && !Crossed(s)
    ensures OnTime(s)
  {
    hide FiredFrom, Wakeup, Crossed, Ids, IdOk, TimerOk, FieldOk;
    WakeupFires(s);
    var s' := Wakeup(s);
    FiredInOrder(s, s'.fired[|s.fired|..], s'.timers);
  }

  /** With such a pair in the list a timer is late or out of order, unless an alarm that is due
      cancels one of the two. */
  lemma CrossedIsLate(s: System)
    requires Inv(s) && forall x :: x in s.timers && x.handler.Alarm? ==> x.expires > s.now
    ensures OnTime(s) <==> !Crossed(s)
  {
    hide Wakeup, CrossedBy, Ids, IdOk, TimerOk, FieldOk;
    if Crossed(s) {
      WakeupFires(s);
      var s' := Wakeup(s);
      var x, y :| CrossedBy(s, x, y);
      FiredOutOfOrder(s, s'.fired[|s.fired|..], s'.timers, x, y);
    } else {
      WakeupFiresAllDue(s);
    }
  }

  /** Two timers six ticks apart around 2^31, at the tick the first is due: it is not fired. */
  lemma LateTimer()
    ensures var x, y := Timer(0, 0, 0x7FFF_FFFF, Alarm), Timer(1, 0, 0x8000_0005, Motor);
      var s := System(InsertBy(InsertBy([], x, Key), y, Key), [Task(Awake, None, Some(0), true)], Some(1), [], [], 2, 0x7FFF_FFFF);
      Inv(s) && s.timers == [y, x] && Wakeup(s) == s && !OnTime(s)
  {
    var x, y := Timer(0, 0, 0x7FFF_FFFF, Alarm), Timer(1, 0, 0x8000_0005, Motor);
    var s := System(InsertBy(InsertBy([], x, Key), y, Key), [Task(Awake, None, Some(0), true)], Some(1), [], [], 2, 0x7FFF_FFFF);
    assert s.timers == [y, x];
    assert s.timers[0] == y && s.timers[1] == x;
    forall n: nat ensures IdOk(s, n) {
      if n == 0 { assert x in s.timers; } else if n == 1 { assert y in s.timers; }
    }
    assert x in s.timers && y in s.timers;
    forall t: nat, h ensures FieldOk(s, t, h) {
      if h.Motor? { assert Named(s, t, h, y); } else if h.Alarm? && t == 0 { assert Named(s, t, h, x); }
    }
  }

  /** A timer whose time passes 2^32 is due at once, and so is one for no time at all; no other
      timer is when it is made. */
  lemma DueAtOnce(now: u32, ticks: u32)
    ensures Expires(now, ticks) <= now <==> ticks == 0 || now + ticks >= 0x1_0000_0000
  {
  }

  /** The condition of the loop of timer_wakeup is false when the loop is done, except at tick
      2^32 - 1: there the empty list looks like one more timer, and the code goes on behind it. */
  lemma LoopEnds(s: System)
    requires Inv(s)
    ensures FirstExpiry(Wakeup(s)) <= s.now <==> s.now == NEVER
    ensures FirstExpiry(Wakeup(s)) <= s.now ==> Wakeup(s).timers == []
  {
    WakeupFires(s);
  }

  // ---------------------------------------------------------------- runs

  datatype Event =
    | Blocks(t: nat, wait: Wait, timeout: Option<u32>)
    | Unblocks(t: nat)
    | SetsAlarm(t: nat, ticks: u32)
    | StopsMotor(t: nat, ticks: u32)
    | Forks(t: nat)
    | Exits(t: nat)
    | Clock

  predicate Running(s: System, t: nat) {
    t < |s.tasks| && s.tasks[t].wait.Awake?
  }

  /** What can happen.  The clock does not reach tick 2^32 - 1; see LoopEnds. */
  predicate Enabled(s: System, e: Event) {
    match e
    case Blocks(t, wait, _) => Running(s, t) && (wait.Blocked? || wait.Sleeping?)
    case Unblocks(t) => t < |s.tasks| && !s.tasks[t].wait.Dead?
    case SetsAlarm(t, _) => Running(s, t)
    case StopsMotor(t, _) => Running(s, t)
    case Forks(t) => Running(s, t)
    case Exits(t) => Running(s, t)
    case Clock => Expires(s.now, 1) != NEVER
  }

  function Tick(s: System): System {
    s.(now := Expires(s.now, 1))
  }

  function Next(s: System, e: Event): System
    requires Enabled(s, e)
  {
    match e
    case Blocks(t, wait, timeout) => Block(s, t, wait, timeout)
    case Unblocks(t) => Unblock(s, t)
    case SetsAlarm(t, ticks) => SetAlarm(s, t, ticks)
    case StopsMotor(t, ticks) => MotorOff(s, t, ticks)
    case Forks(t) => Fork(s, t)
    case Exits(t) => Exit(s, t)
    case Clock => Wakeup(Tick(s))
  }

  /** No pointer is copied, and none left behind: a task with an alarm set does not fork, and one
      whose timer is to stop the motor does not exit. */
  ghost predicate Safe(s: System, e: Event) {
    match e
    case Forks(t) => TaskAt(s, t).alarm == None
    case Exits(t) => !OwnsMotor(s, t)
    case _ => true
  }

  /** Whatever happens keeps the invariant exactly when it is safe in this sense. */
  lemma NextKeeps(s: System, e: Event)
    requires Inv(s) && Enabled(s, e)
    ensures Inv(Next(s, e)) <==> Safe(s, e)
  {
    match e
    case Blocks(t, wait, timeout) => BlockKeeps(s, t, wait, timeout);
    case Unblocks(t) => UnblockKeeps(s, t);
    case SetsAlarm(t, ticks) => SetAlarmKeeps(s, t, ticks);
    case StopsMotor(t, ticks) => MotorOffKeeps(s, t, ticks);
    case Forks(t) => ForkKeeps(s, t);
    case Exits(t) => ExitKeeps(s, t);
    case Clock =>
      TickKeeps(s);
      WakeupFires(Tick(s));
  }

  lemma TickKeeps(s: System)
    requires Inv(s)
    ensures Inv(Tick(s))
  {
    assert ListOk(s);
    SameKeeps(s, Tick(s));
  }

  ghost predicate Run(states: seq<System>, events: seq<Event>) {
    |states| == |events| + 1 &&
    forall i :: 0 <= i < |events| ==> Enabled(states[i], events[i]) && states[i + 1] == Next(states[i], events[i])
  }

  /** In every run of safe events, whatever the clock says, and whether a wakeup, the expiry or a
      signal comes first: the list stays sorted by its key, a task has a pending timeout only
      while it waits with one, every pointer to a timer leads to a pending one of its owner and
      every pending timer has its pointer, and every timer ever made is either pending or was
      released exactly once. */
  lemma {:induction false} RunKeeps(states: seq<System>, events: seq<Event>, n: nat)
    requires Run(states, events) && Inv(states[0]) && n <= |events|
    requires forall i :: 0 <= i < n ==> Safe(states[i], events[i])
    ensures Inv(states[n])
  {
    hide Inv, Next, Enabled, Safe;
    if n > 0 {
      RunKeeps(states, events, n - 1);
      NextKeeps(states[n - 1], events[n - 1]);
    }
  }

  /** The first event of a run that is not safe breaks the invariant. */
  lemma FirstUnsafe(states: seq<System>, events: seq<Event>, n: nat)
    requires Run(states, events) && Inv(states[0]) && n < |events| && !Safe(states[n], events[n])
    requires forall i :: 0 <= i < n ==> Safe(states[i], events[i])
    ensures !Inv(states[n + 1])
  {
    hide Inv, Next, Enabled, Safe;
    RunKeeps(states, events, n);
    NextKeeps(states[n], events[n]);
  }

  lemma StartOk(tasks: seq<Task>, now: u32)
    requires forall t :: 0 <= t < |tasks| ==> tasks[t].timer == None && tasks[t].alarm == None
    ensures Inv(System([], tasks, None, [], [], 0, now))
  {
    var s := System([], tasks, None, [], [], 0, now);
    forall t: nat, h ensures FieldOf(s, t, h) == None {
    }
  }

  // ---------------------------------------------------------------- pointers copied and left behind

  function Start(): System {
    System([], [Task(Awake, None, None, true)], None, [], [], 0, 0)
  }

  /** After an alarm of task 0, and after one of the child it then forked. */
  function Alarmed(): System {
    System([Timer(0, 0, 10, Alarm)], [Task(Awake, None, Some(0), true)], None, [], [], 1, 0)
  }

  function Replaced(): System {
    System([Timer(1, 1, 5, Alarm)], [Task(Awake, None, Some(0), true), Task(Awake, None, Some(1), true)], None, [0], [], 2, 0)
  }

  lemma OneAlarm()
    ensures SetAlarm(Start(), 0, 10) == Alarmed() && SetAlarm(Fork(Alarmed(), 0), 1, 5) == Replaced()
    ensures SetAlarm(Replaced(), 0, 1).released == [0, 0]
  {
    assert Drop([Timer(0, 0, 10, Alarm)], 0) == [];
  }

  lemma AlarmedOk()
    ensures Inv(Alarmed()) && !Inv(Fork(Alarmed(), 0))
  {
    OneAlarm();
    StartOk(Start().tasks, 0);
    hide Inv, SetAlarm;
    SetAlarmKeeps(Start(), 0, 10);
    ForkKeeps(Alarmed(), 0);
  }

  /** A task sets an alarm and forks; the child sets one, which frees the parent's; the parent sets
      one, which frees it again. */
  lemma FreedTwice() returns (states: seq<System>, events: seq<Event>)
    ensures events == [SetsAlarm(0, 10), Forks(0), SetsAlarm(1, 5), SetsAlarm(0, 1)] && |states| == 5
    ensures Run(states, events) && states[0] == Start() && Inv(states[1]) && !Inv(states[2])
    ensures states[4].released == [0, 0]
  {
    hide Inv, SetAlarm;
    events := [SetsAlarm(0, 10), Forks(0), SetsAlarm(1, 5), SetsAlarm(0, 1)];
    states := [Start(), Alarmed(), Fork(Alarmed(), 0), Replaced(), SetAlarm(Replaced(), 0, 1)];
    OneAlarm();
    AlarmedOk();
  }

  /** A task uses the drive and exits before the motor stops: the timer is freed, so the motor
      never stops, and the drive still points to it. */
  lemma MotorRuns() returns (states: seq<System>, events: seq<Event>)
    ensures events == [StopsMotor(0, 200), Exits(0)] && |states| == 3
    ensures Run(states, events) && states[0] == Start() && Inv(states[1]) && !Inv(states[2])
    ensures states[2].timers == [] && states[2].released == [0] && states[2].motor == Some(0)
  {
    events := [StopsMotor(0, 200), Exits(0)];
    var x := Timer(0, 0, 200, Motor);
    var s1 := System([x], Start().tasks, Some(0), [], [], 1, 0);
    states := [Start(), s1, Exit(s1, 0)];
    OneMotor();
    StartOk(Start().tasks, 0);
    MotorOffKeeps(Start(), 0, 200);
    assert x in s1.timers;
    ExitKeeps(s1, 0);
    hide Inv, Exit, MotorOff;
    forall i | 0 <= i < 2 ensures Enabled(states[i], events[i]) && states[i + 1] == Next(states[i], events[i]) {
    }
  }

  lemma OneMotor()
    ensures var x := Timer(0, 0, 200, Motor);
      var s1 := System([x], Start().tasks, Some(0), [], [], 1, 0);
      MotorOff(Start(), 0, 200) == s1 && Exit(s1, 0).timers == [] && Exit(s1, 0).released == [0] && Exit(s1, 0).motor == Some(0)
  {
    var x := Timer(0, 0, 200, Motor);
    var s1 := System([x], Start().tasks, Some(0), [], [], 1, 0);
    var s0 := SetTask(s1, 0, TaskAt(s1, 0).(wait := Dead));
    assert Drop([x], 0) == [] && [x][1..] == [];
    assert RemoveOf(s0, [x], 0) == PutTimer(s0, 0);
  }

  // ---------------------------------------------------------------- runs below 2^31

  /** The tick a request ends at. */
  function EndsAt(s: System, e: Event): nat {
    match e
    case Blocks(_, _, timeout) => s.now + if timeout.Some? then timeout.value else 0
    case SetsAlarm(_, ticks) => s.now + ticks
    case StopsMotor(_, ticks) => s.now + ticks
    case _ => 0
  }

  ghost predicate AllLow(s: System) {
    forall x :: x in s.timers ==> !High(x)
  }

  lemma LowStays(s: System, e: Event)
    requires Inv(s) && Enabled(s, e) && AllLow(s) && EndsAt(s, e) < 0x8000_0000
    ensures AllLow(Next(s, e))
  {
    hide Inv, InsertBy, Drop, Wakeup;
    match e
    case Blocks(t, wait, timeout) =>
      if timeout.Some? { AddMembers(SetTask(s, t, TaskAt(s, t).(wait := wait)), t, timeout.value, Timeout); }
    case Unblocks(t) => UnblockKeeps(s, t);
    case SetsAlarm(t, ticks) =>
      var a := TaskAt(s, t).alarm;
      AddMembers(if a.Some? then PutTimer(s, a.value) else s, t, ticks, Alarm);
    case StopsMotor(t, ticks) => LowMotor(s, t, ticks);
    case Forks(t) =>
    case Exits(t) => ExitKeeps(s, t);
    case Clock =>
      TickKeeps(s);
      WakeupFires(Tick(s));
  }

  lemma LowMotor(s: System, t: nat, ticks: u32)
    requires Inv(s) && Running(s, t) && AllLow(s) && s.now + ticks < 0x8000_0000
    ensures AllLow(MotorOff(s, t, ticks))
  {
    assert FieldOk(s, t, Motor);
    if s.motor.Some? {
      var x :| Named(s, t, Motor, x);
      UpdateList(s, x, ticks);
    } else {
      AddMembers(s, t, ticks, Motor);
    }
  }

  lemma AddMembers(s: System, t: nat, ticks: u32, handler: Handler)
    ensures forall y :: y in Add(s, t, ticks, handler).timers ==> y in s.timers || y == Timer(s.nextId, t, Expires(s.now, ticks), handler)
  {
    InsertByHolds(s.timers, Timer(s.nextId, t, Expires(s.now, ticks), handler), Key);
  }

  /** As long as nothing is asked for that ends at 2^31 or later, every tick of the clock fires
      all that is due, in the order of expiry. */
  lemma {:induction false} RunOnTime(states: seq<System>, events: seq<Event>, n: nat)
    requires Run(states, events) && Inv(states[0]) && AllLow(states[0]) && n <= |events|
    requires forall i :: 0 <= i < n ==> EndsAt(states[i], events[i]) < 0x8000_0000 && Safe(states[i], events[i])
    ensures AllLow(states[n]) && (n < |events| && events[n].Clock? ==> OnTime(Tick(states[n])))
  {
    hide Inv, Next, Enabled, OnTime, EndsAt, Safe;
    if n > 0 {
      RunOnTime(states, events, n - 1);
      RunKeeps(states, events, n - 1);
      LowStays(states[n - 1], events[n - 1]);
    }
    if n < |events| {
      RunKeeps(states, events, n);
      TickKeeps(states[n]);
      WakeupFiresAllDue(Tick(states[n]));
    }
  }
}
