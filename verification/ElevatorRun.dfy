/** In which order waiting requests are served, and that they are. */
module ElevatorRun {
  import opened Words
  import opened Lists
  import opened Elevator

  /** What is still to be served when nobody else comes, in order, and in how many steps: two for
      each request, one for a request that is at the device. */
  ghost predicate Left(s: System, all: seq<Req>, steps: nat) {
    if s.d.queue == [] then all == [] && steps == 0 else exists g: nat :: LeftFrom(s, g, all, steps)
  }

  ghost predicate LeftFrom(s: System, g: nat, all: seq<Req>, steps: nat) {
    OnlyGranted(s, g) && all == Served(s.d, g) &&
    steps == 2 * |s.d.queue| - if PhaseOf(s, s.d.queue[g].task) == AtDevice then 1 else 0
  }

  lemma ResumeOn(s: System, t: nat, all: seq<Req>, steps: nat)
    requires Inv(s) && Enabled(s, Runs(t)) && Left(s, all, steps)
    ensures steps > 0 && Left(Resume(s, t), all, steps - 1)
  {
    assert PhaseOk(s, t);
    var i :| 0 <= i < |s.d.queue| && s.d.queue[i].task == t;
    var g: nat :| LeftFrom(s, g, all, steps);
    assert i == g;
    hide Served;
    assert LeftFrom(Resume(s, t), g, all, steps - 1);
  }

  lemma CompleteOn(s: System, c: nat, all: seq<Req>, steps: nat)
    requires Inv(s) && Enabled(s, Finishes(c)) && Left(s, all, steps)
    ensures all != [] && all[0] == s.d.queue[c] && steps > 0 && Left(Complete(s, c), all[1..], steps - 1)
  {
    var g: nat :| LeftFrom(s, g, all, steps);
    assert g == c;
    NextExists(s.d, c);
    if HasNext(s.d, c) {
      CompleteGranted(s, c);
      CompleteKeeps(s, c);
      assert LeftFrom(Complete(s, c), NextIn(s.d, c), all[1..], steps - 1);
    }
  }

  /** At most so many steps are left. */
  ghost predicate LeftWithin(s: System, all: seq<Req>, bound: int) {
    exists steps: nat :: Left(s, all, steps) && steps <= bound
  }

  /** The request that an event finishes. */
  function Finished(s: System, e: Event): seq<Req>
    requires Enabled(s, e)
  {
    if e.Finishes? then [s.d.queue[e.c]] else []
  }

  lemma StepOn(s: System, e: Event, all: seq<Req>, bound: int)
    requires Inv(s) && Enabled(s, e) && !e.Comes? && LeftWithin(s, all, bound)
    ensures Inv(Next(s, e)) && Finished(s, e) <= all && LeftWithin(Next(s, e), all[|Finished(s, e)|..], bound - 1)
  {
    hide Inv, Left;
    var steps: nat :| Left(s, all, steps) && steps <= bound;
    if e.Runs? {
      ResumeKeeps(s, e.t);
      ResumeOn(s, e.t, all, steps);
      assert all[0..] == all;
    } else {
      CompleteKeeps(s, e.c);
      CompleteOn(s, e.c, all, steps);
    }
  }

  lemma LeftNow(s: System, g: nat)
    requires OnlyGranted(s, g)
    ensures LeftWithin(s, Served(s.d, g), 2 * |s.d.queue|)
  {
    hide Served;
    var steps: nat := 2 * |s.d.queue| - if PhaseOf(s, s.d.queue[g].task) == AtDevice then 1 else 0;
    assert LeftFrom(s, g, Served(s.d, g), steps);
    assert Left(s, Served(s.d, g), steps);
  }

  lemma NothingLeft(s: System, all: seq<Req>, bound: int)
    requires LeftWithin(s, all, bound)
    ensures bound >= 0 && (s.d.queue == [] <==> all == [])
  {
  }

  /** The requests finished in the first n events. */
  function Done(states: seq<System>, events: seq<Event>, n: nat): seq<Req>
    requires n <= |events| < |states| && forall i :: 0 <= i < n ==> Enabled(states[i], events[i])
  {
    if n == 0 then [] else Done(states, events, n - 1) + Finished(states[n - 1], events[n - 1])
  }

  lemma OneMoreDone(all: seq<Req>, done: seq<Req>, more: seq<Req>)
    requires done <= all && more <= all[|done|..]
    ensures done + more <= all && all[|done|..][|more|..] == all[|done + more|..]
  {
  }

  lemma {:induction false} RunGoesOn(states: seq<System>, events: seq<Event>, n: nat, g: nat)
    requires Run(states, events) && Inv(states[0]) && OnlyGranted(states[0], g) && n <= |events|
    requires forall i :: 0 <= i < n ==> !events[i].Comes?
    ensures var all, done := Served(states[0].d, g), Done(states, events, n);
      Inv(states[n]) && done <= all && LeftWithin(states[n], all[|done|..], 2 * |states[0].d.queue| - n)
  {
    hide Served, LeftWithin, Inv, Next, Enabled, Finished;
    var all := Served(states[0].d, g);
    if n == 0 {
      LeftNow(states[0], g);
      assert all[0..] == all;
    } else {
      RunGoesOn(states, events, n - 1, g);
      var s, e, done := states[n - 1], events[n - 1], Done(states, events, n - 1);
      StepOn(s, e, all[|done|..], 2 * |states[0].d.queue| - (n - 1));
      OneMoreDone(all, done, Finished(s, e));
    }
  }

  /** In every run in which nobody else comes, under any schedule, the requests are finished in the
      order of the two sweeps, and after at most two steps for each of them none is left. */
  lemma RunServes(states: seq<System>, events: seq<Event>, n: nat, g: nat)
    requires Run(states, events) && Inv(states[0]) && OnlyGranted(states[0], g) && n <= |events|
    requires forall i :: 0 <= i < n ==> !events[i].Comes?
    ensures n <= 2 * |states[0].d.queue| && Done(states, events, n) <= Served(states[0].d, g)
    ensures states[n].d.queue == [] <==> Done(states, events, n) == Served(states[0].d, g)
  {
    hide Served, LeftWithin, Inv, Next, Enabled, Done;
    RunGoesOn(states, events, n, g);
    NothingLeft(states[n], Served(states[0].d, g)[|Done(states, events, n)|..], 2 * |states[0].d.queue| - n);
  }
}
