/** The scheduler itself (`system/scheduler.h`, `system/task.h`): every call is shown to be a run of
    the machine of `SchedulerProtocol`. */
module Scheduler {
  import opened SchedulerProtocol
  import opened SchedulerTimes

  /** What a coroutine does between being resumed and suspending itself. */
  datatype Action = AddAnother(wake: int, done: bool) | RemoveOther(index: nat) | StopAll
  datatype Outcome = Yields(wake: int) | Finishes
  datatype Burst = Burst(actions: seq<Action>, outcome: Outcome)

  /** The event of an action, if it is one for the queue. */
  function EventsOf(action: Action): seq<Event> {
    match action
    case AddAnother(wake, done) => [Add(wake, done)]
    case RemoveOther(index) => [Remove(index)]
    case StopAll => [Stop]
  }

  function AllEventsOf(actions: seq<Action>): seq<Event> {
    if actions == [] then [] else AllEventsOf(actions[..|actions| - 1]) + EventsOf(actions[|actions| - 1])
  }

  function EventOf(outcome: Outcome): Event {
    match outcome
    case Yields(wake) => Yield(wake)
    case Finishes => Finish
  }

  /** Between the two logs no pass begins, and a stop request has left its mark. */
  ghost predicate Within(before: seq<Event>, after: seq<Event>, stopRequested: bool) {
    && before <= after
    && forall k | |before| <= k < |after| :: !after[k].Begin? && (after[k] == Stop ==> stopRequested)
  }

  /** From position `from` on, no pass begins after a stop request. */
  ghost predicate StopEnds(log: seq<Event>, from: nat) {
    forall j, k | from <= j < k < |log| && log[j] == Stop :: !log[k].Begin?
  }

  lemma WithinOne(log: seq<Event>, e: Event, stopRequested: bool)
    requires !e.Begin? && (e == Stop ==> stopRequested)
    ensures Within(log, log, stopRequested) && Within(log, log + [e], stopRequested)
  {}

  lemma WithinThen(a: seq<Event>, b: seq<Event>, c: seq<Event>, first: bool, second: bool)
    requires Within(a, b, first) && Within(b, c, second) && (first ==> second)
    ensures Within(a, c, second) && a <= b <= c
  {}

  class Scheduler {
    /** What the task does that is resumed as the `n`th one: anything. */
    const behaviour: nat -> Burst
    /** What the `n`th reading of the clock shows. */
    const clock: nat -> nat
    const queue: array<Slot>
    var stopRequested: bool
    /** The program has ended in `error()` or in what the language leaves undefined: no room for a
        task, a removal out of range, a running task that removes itself. */
    var halted: bool
    var added: nat
    var resumed: nat
    var readings: nat
    ghost var log: seq<Event>
    ghost var state: State

    ghost predicate Logged()
      reads this
    {
      Run(queue.Length, log) && state == After(queue.Length, log)
    }

    ghost predicate Valid()
      reads this, queue
    {
      && Logged() && Inv(state) && state.slots == queue[..] && state.adds == added
      && (forall i, j | 0 <= i <= j :: clock(i) <= clock(j)) && state.time <= clock(readings)
    }

    constructor (size: nat, behaviour: nat -> Burst, clock: nat -> nat)
      requires forall i, j | 0 <= i <= j :: clock(i) <= clock(j)
      ensures Valid() && !halted && !stopRequested && state == Initial(size) && fresh(queue)
    {
      this.behaviour, this.clock := behaviour, clock;
      queue := new Slot[size](_ => Empty);
      stopRequested, halted := false, false;
      added, resumed, readings := 0, 0, 0;
      log, state := [], Initial(size);
    }

    ghost method Record(e: Event)
      requires Logged() && Inv(state) && Enabled(state, e)
      modifies this`log, this`state
      ensures Logged() && Inv(state) && log == old(log) + [e] && state == Step(old(state), e)
    {
      hide Inv, Run, Step, Enabled;
      RunGoesOn(queue.Length, log, e, log + [e]);
      StepKeepsInv(state, e);
      log, state := log + [e], Step(state, e);
    }

    /** `add_task`: the first free slot, or the end of the program if there is none. */
    method AddTask(wake: int, done: bool) returns (index: nat)
      requires Valid() && !halted && CallsAllowed(state)
      modifies this`halted, this`added, this`log, this`state, queue
      ensures Valid()
      ensures halted <==> forall i | 0 <= i < queue.Length :: old(queue[i]).Live?
      ensures halted ==> queue[..] == old(queue[..]) && log == old(log) && state == old(state)
      ensures !halted ==>
                && index < queue.Length && old(queue[index]).Empty?
                && (forall i | 0 <= i < index :: old(queue[i]).Live?)
                && queue[..] == old(queue[..])[index := Live(old(added), wake, done)]
                && log == old(log) + [Add(wake, done)] && state == Step(old(state), Add(wake, done))
    {
      hide Inv, Run, Within;
      for i := 0 to queue.Length
        invariant forall k | 0 <= k < i :: queue[k].Live?
      {
        if queue[i].Empty? {
          assert queue[..][i].Empty? && forall k | 0 <= k < i :: queue[..][k].Live?;
          Record(Add(wake, done));
          queue[i] := Live(added, wake, done);
          added := added + 1;
          return i;
        }
      }
      halted := true;
      index := 0;
    }

    /** `remove_task`. */
    method RemoveTask(index: nat)
      requires Valid() && !halted && CallsAllowed(state) && (state.phase == Running ==> index != state.cursor)
      modifies this`halted, this`log, this`state, queue
      ensures Valid() && (halted <==> index >= queue.Length)
      ensures halted ==> queue[..] == old(queue[..]) && log == old(log) && state == old(state)
      ensures !halted ==>
                && queue[..] == old(queue[..])[index := Empty]
                && log == old(log) + [Remove(index)] && state == Step(old(state), Remove(index))
    {
      hide Inv, Run, Within;
      if index < queue.Length {
        Record(Remove(index));
        queue[index] := Empty;
      } else {
        halted := true;
      }
    }

    method QueueSize() returns (size: nat)
      ensures size == CountLive(queue[..])
    {
      size := 0;
      for i := 0 to queue.Length
        invariant size == CountLive(queue[..i])
      {
        assert queue[..i + 1][..i] == queue[..i];
        if queue[i].Live? { size := size + 1; }
      }
      assert queue[..queue.Length] == queue[..];
    }

    /** `stop`. */
    method RequestStop()
      requires Valid() && !halted
      modifies this`stopRequested, this`log, this`state
      ensures Valid() && stopRequested && log == old(log) + [Stop] && state == old(state)
    {
      hide Inv, Run, Within;
      Record(Stop);
      stopRequested := true;
    }

    /** While a task runs, the pass stands still. */
    ghost predicate SamePass(before: State)
      reads this
    {
      && state.sleeps == before.sleeps
      && state.cursor == before.cursor && state.inPass == before.inPass && state.next == before.next
      && state.time == before.time && state.passStart == before.passStart
      && state.passAdds == before.passAdds && state.passes == before.passes
    }

    /** One thing that a running task does. */
    method Act(index: nat, action: Action)
      requires Valid() && !halted && state.phase == Running && state.cursor == index
      modifies this`halted, this`stopRequested, this`added, this`log, this`state, queue
      ensures Valid() && state.phase == Running && SamePass(old(state)) && Within(old(log), log, stopRequested)
      ensures old(stopRequested) ==> stopRequested
      ensures !halted ==>
                && log == old(log) + EventsOf(action)
                && stopRequested == (old(stopRequested) || action == StopAll)
    {
      hide Inv, Run, Within;
      ghost var before := log;
      WithinOne(before, Skip, stopRequested);
      match action {
        case AddAnother(wake, done) => var slot := AddTask(wake, done);
        case RemoveOther(k) => if k == index { halted := true; } else { RemoveTask(k); }
        case StopAll => RequestStop();
      }
      if !halted { WithinOne(before, EventsOf(action)[0], stopRequested); }
    }

    /** What a task does until it suspends itself. */
    method RunActions(index: nat, actions: seq<Action>)
      requires Valid() && !halted && state.phase == Running && state.cursor == index
      modifies this`halted, this`stopRequested, this`added, this`log, this`state, queue
      ensures Valid() && state.phase == Running && SamePass(old(state)) && Within(old(log), log, stopRequested)
      ensures old(stopRequested) ==> stopRequested
      ensures !halted ==>
                && log == old(log) + AllEventsOf(actions)
                && stopRequested == (old(stopRequested) || StopAll in actions)
    {
      hide Inv, Run, Within, Enabled, Step, EventsOf;
      var i := 0;
      WithinOne(log, Skip, stopRequested);
      while i < |actions| && !halted
        invariant i <= |actions| && Valid() && state.phase == Running && SamePass(old(state))
        invariant Within(old(log), log, stopRequested) && (old(stopRequested) ==> stopRequested)
        invariant !halted ==>
                    && log == old(log) + AllEventsOf(actions[..i])
                    && stopRequested == (old(stopRequested) || StopAll in actions[..i])
        decreases |actions| - i
      {
        ghost var before, stopped := log, stopRequested;
        assert actions[..i + 1] == actions[..i] + [actions[i]];
        Act(index, actions[i]);
        WithinThen(old(log), before, log, stopped, stopRequested);
        i := i + 1;
      }
      if !halted { assert actions[..i] == actions; }
    }

    /** The task suspends itself, or ends. */
    method Suspend(index: nat, outcome: Outcome)
      requires Valid() && !halted && state.phase == Running && state.cursor == index
      modifies this`log, this`state, queue
      ensures Valid() && state.phase == Ran && SamePass(old(state)) && log == old(log) + [EventOf(outcome)]
      ensures queue[index].Live?
      ensures Within(old(log), log, stopRequested)
      ensures outcome.Yields? ==> log == old(log) + [Yield(outcome.wake)] && queue[index].wake == outcome.wake
      ensures outcome.Finishes? ==> log == old(log) + [Finish] && queue[index].done
    {
      hide Inv, Run, Within;
      WithinOne(log, EventOf(outcome), stopRequested);
      VisitedIsLive(state);
      Record(EventOf(outcome));
      match outcome {
        case Yields(wake) => queue[index] := queue[index].(wake := wake);
        case Finishes => queue[index] := queue[index].(done := true);
      }
    }

    /** `run`: resumes the coroutine, which does what it likes and then yields or finishes. */
    method RunTask(index: nat)
      requires Valid() && !halted && state.phase == Due && state.cursor == index
      modifies this`halted, this`stopRequested, this`added, this`resumed, this`log, this`state, queue
      ensures Valid() && old(log) + [Resume] <= log && SamePass(old(state)) && resumed == old(resumed) + 1
      ensures Within(old(log), log, stopRequested) && (old(stopRequested) ==> stopRequested)
      ensures !halted ==>
                && state.phase == Ran
                && log == old(log) + [Resume] + AllEventsOf(behaviour(old(resumed)).actions)
                          + [EventOf(behaviour(old(resumed)).outcome)]
                && stopRequested == (old(stopRequested) || StopAll in behaviour(old(resumed)).actions)
    {
      hide Inv, Run, Within, AllEventsOf, EventOf;
      WithinOne(log, Resume, stopRequested);
      Record(Resume);
      ghost var before, stopped := log, stopRequested;
      var burst := behaviour(resumed);
      resumed := resumed + 1;
      RunActions(index, burst.actions);
      WithinThen(old(log), before, log, stopped, stopRequested);
      if !halted {
        before := log;
        Suspend(index, burst.outcome);
        WithinThen(old(log), before, log, stopRequested, stopRequested);
      }
    }

    method ReadClock() returns (now: nat)
      requires Valid()
      modifies this`readings
      ensures Valid() && now == clock(old(readings)) && readings == old(readings) + 1
      ensures state.time <= now <= clock(readings)
    {
      now := clock(readings);
      readings := readings + 1;
    }

    /** The pass has gone on to the slot after `index`, or has ended. */
    ghost predicate Moved(before: State, index: nat)
      reads this
    {
      && state.phase == Idle && state.inPass == (index + 1 < queue.Length)
      && state.cursor == (if state.inPass then index + 1 else 0)
      && state.passStart == before.passStart && state.passAdds == before.passAdds && state.passes == before.passes
      && state.sleeps == before.sleeps
    }

    /** The end of a visit: a complete task is dropped, another one counts for the wake-up time. */
    method Conclude(index: nat, nextWakeupTime: int) returns (next: int)
      requires Valid() && state.phase == Ran && state.cursor == index && nextWakeupTime == state.next
      modifies this`log, this`state, queue
      ensures Valid() && log == old(log) + [Settle] && Moved(old(state), index)
      ensures next == state.next
              == if old(queue[index]).done then nextWakeupTime else Min(nextWakeupTime, old(queue[index]).wake)
    {
      hide Inv, Run, Within;
      next := nextWakeupTime;
      VisitedIsLive(state);
      Record(Settle);
      if queue[index].done {
        queue[index] := Empty;
      } else {
        next := Min(next, queue[index].wake);
      }
    }

    /** The visit of a slot with a task. */
    method VisitTask(index: nat, nextWakeupTime: int) returns (next: int)
      requires Valid() && !halted && state.phase == Idle && state.inPass && state.cursor == index
      requires nextWakeupTime == state.next && queue[index].Live?
      modifies this`halted, this`stopRequested, this`added, this`resumed, this`readings, this`log, this`state, queue
      ensures Valid() && (!halted ==> next == state.next && Moved(old(state), index))
      ensures Within(old(log), log, stopRequested) && (old(stopRequested) ==> stopRequested)
    {
      hide Inv, Run, Within;
      next := nextWakeupTime;
      var now := ReadClock();
      CursorInside(state);
      assert queue[..][index] == queue[index];
      WithinOne(log, Look(now), stopRequested);
      Record(Look(now));
      if queue[index].wake <= now {
        ghost var before, stopped := log, stopRequested;
        RunTask(index);
        WithinThen(old(log), before, log, stopped, stopRequested);
      }
      if !halted {
        ghost var before := log;
        WithinOne(before, Settle, stopRequested);
        next := Conclude(index, next);
        WithinThen(old(log), before, log, stopRequested, stopRequested);
      }
    }

    /** The visit of one slot. */
    method Visit(index: nat, nextWakeupTime: int) returns (next: int)
      requires Valid() && !halted && state.phase == Idle && state.inPass && state.cursor == index
      requires nextWakeupTime == state.next
      modifies this`halted, this`stopRequested, this`added, this`resumed, this`readings, this`log, this`state, queue
      ensures Valid() && (!halted ==> next == state.next && Moved(old(state), index))
      ensures Within(old(log), log, stopRequested) && (old(stopRequested) ==> stopRequested)
    {
      hide Inv, Run, Within;
      next := nextWakeupTime;
      CursorInside(state);
      if queue[index].Live? {
        next := VisitTask(index, next);
      } else {
        WithinOne(log, Skip, stopRequested);
        Record(Skip);
      }
    }

    /** `run_tasks_once`: a time at most five seconds after the first clock reading, and not after the
        wake time of any task that was queued before the pass and still is. */
    method RunTasksOnce() returns (next: int)
      requires Valid() && !halted && state.phase == Idle && !state.inPass
      modifies this`halted, this`stopRequested, this`added, this`resumed, this`readings, this`log, this`state, queue
      ensures Valid() && Within(old(log) + [Begin(clock(old(readings)))], log, stopRequested)
      ensures old(stopRequested) ==> stopRequested
      ensures !halted ==>
                && state.phase == Idle && !state.inPass && next == state.next && state.passes == old(state.passes) + 1
                && state.sleeps == old(state.sleeps)
                && next <= clock(old(readings)) + SLEEP_CAP
                && (forall i | 0 <= i < queue.Length && queue[i].Live? && i in state.seen :: next <= queue[i].wake)
                && (forall i | 0 <= i < queue.Length && queue[i].Live? && queue[i].id < old(added) ::
                      next <= queue[i].wake)
      ensures forall i | 0 <= i < queue.Length && queue[i].Live? ::
                queue[i].wake == Asked(queue.Length, log, |log|, queue[i].id)
    {
      var now := ReadClock();
      Record(Begin(now));
      ghost var began := log;
      WithinOne(began, Skip, stopRequested);
      next := now + SLEEP_CAP;
      for i := 0 to queue.Length
        invariant Valid() && !halted && state.phase == Idle && state.passes == old(state.passes) + 1
        invariant Within(began, log, stopRequested) && (old(stopRequested) ==> stopRequested)
        invariant state.sleeps == old(state.sleeps)
        invariant state.inPass == (i < queue.Length) && state.cursor == (if state.inPass then i else 0)
        invariant next == state.next && state.passStart == now && state.passAdds == old(added)
      {
        ghost var before, stopped := log, stopRequested;
        next := Visit(i, next);
        WithinThen(began, before, log, stopped, stopRequested);
        if halted { break; }
      }
      WakesAreAsked();
    }

    /** Every queued task is known to wake at the time that it asked for last. */
    lemma WakesAreAsked()
      requires Valid()
      ensures forall i | 0 <= i < queue.Length && queue[i].Live? ::
                queue[i].wake == Asked(queue.Length, log, |log|, queue[i].id)
    {
      hide Inv, Run, Asked;
      forall i | 0 <= i < queue.Length && queue[i].Live?
        ensures queue[i].wake == Asked(queue.Length, log, |log|, queue[i].id)
      {
        SlotsAreAsked(queue.Length, log, |log|, i);
        assert queue[i] == state.slots[i];
      }
    }

    /** `start`, up to some number of passes: each is followed by one sleep, and every sleep is safe. A
        stop request ends it: the pass in which it comes is the last one, and if it came before, there
        is none. */
    method Start(rounds: nat)
      requires Valid() && !halted && state.phase == Idle && !state.inPass
      modifies this`halted, this`stopRequested, this`added, this`resumed, this`readings, this`log, this`state, queue
      ensures Valid() && old(log) <= log
      ensures !halted ==> state.phase == Idle && !state.inPass
      ensures !halted ==> state.sleeps - old(state.sleeps) == state.passes - old(state.passes) <= rounds
      ensures !halted && !stopRequested ==> state.passes == old(state.passes) + rounds
      ensures forall k | |old(log)| <= k < |log| :: SafeSleep(queue.Length, log, k)
      ensures StopEnds(log, |old(log)|) && (old(stopRequested) ==> log == old(log))
    {
      hide Inv, Run;
      var left := rounds;
      while !stopRequested && left > 0
        invariant Valid() && old(log) <= log && !halted && state.phase == Idle && !state.inPass
        invariant 0 <= left <= rounds && state.passes == old(state.passes) + (rounds - left)
        invariant state.sleeps == old(state.sleeps) + (rounds - left)
        invariant forall k | |old(log)| <= k < |log| && log[k] == Stop :: stopRequested
        invariant StopEnds(log, |old(log)|) && (old(stopRequested) ==> log == old(log))
      {
        ghost var before := log;
        var nextWakeupTime := RunTasksOnce();
        PassEnds(before, log, stopRequested, |old(log)|);
        if halted { break; }
        WithinOne(log, Sleep(nextWakeupTime), stopRequested);
        WithinThen(before + [log[|before|]], log, log + [Sleep(nextWakeupTime)], stopRequested, stopRequested);
        Record(Sleep(nextWakeupTime));
        PassEnds(before, log, stopRequested, |old(log)|);
        left := left - 1;
      }
      forall k | |old(log)| <= k < |log| ensures SafeSleep(queue.Length, log, k) {
        SleepIsSafe(queue.Length, log, k);
      }
    }
  }

  /** One more pass, before which no stop was requested. */
  lemma PassEnds(before: seq<Event>, after: seq<Event>, stopRequested: bool, from: nat)
    requires from <= |before| < |after| && Within(before + [after[|before|]], after, stopRequested)
    requires after[|before|] != Stop && forall k | from <= k < |before| :: before[k] != Stop
    ensures StopEnds(after, from) && forall k | from <= k < |after| && after[k] == Stop :: stopRequested
  {}
}
