/** The times that tasks ask for, taken from the log of a run alone, and what the scheduler makes of them:
    when tasks are resumed, how long it sleeps, and which tasks are still in the queue. */
module SchedulerTimes {
  import opened SchedulerProtocol

  // ----- what the log says

  /** How many tasks the first `k` events add. */
  function AddsIn(log: seq<Event>, k: nat): nat
    requires k <= |log|
  {
    if k == 0 then 0 else AddsIn(log, k - 1) + if log[k - 1].Add? then 1 else 0
  }

  /** The latest clock reading among the first `k` events. */
  function Reading(log: seq<Event>, k: nat): nat
    requires k <= |log|
  {
    if k == 0 then 0
    else
      match log[k - 1]
      case Begin(now) => now
      case Look(now) => now
      case _ => Reading(log, k - 1)
  }

  /** The number of events up to the beginning of the latest pass, which is the last one of them. */
  function PassOf(log: seq<Event>, k: nat): (p: nat)
    requires k <= |log|
    ensures p <= k && (p > 0 ==> log[p - 1].Begin?) && forall j | p <= j < k :: !log[j].Begin?
  {
    if k == 0 then 0 else if log[k - 1].Begin? then k else PassOf(log, k - 1)
  }

  /** The event is part of the visit of task `id`. */
  ghost predicate Visits(size: nat, log: seq<Event>, k: nat, id: nat)
    requires k < |log|
  {
    In(At(size, log, k), At(size, log, k).cursor, id)
  }

  /** The time that task `id` has asked for: with its latest `Yield`, or when it was added. */
  ghost function Asked(size: nat, log: seq<Event>, k: nat, id: nat): int
    requires k <= |log|
  {
    if k == 0 then 0
    else
      match log[k - 1]
      case Yield(wake) => if Visits(size, log, k - 1, id) then wake else Asked(size, log, k - 1, id)
      case Add(wake, _) => if AddsIn(log, k - 1) == id then wake else Asked(size, log, k - 1, id)
      case _ => Asked(size, log, k - 1, id)
  }

  /** Task `id` has come to its end, or was complete when it was added. */
  ghost predicate Finished(size: nat, log: seq<Event>, k: nat, id: nat)
    requires k <= |log|
  {
    k > 0 && (
      || Finished(size, log, k - 1, id)
      || (log[k - 1] == Finish && Visits(size, log, k - 1, id))
      || (log[k - 1].Add? && log[k - 1].done && AddsIn(log, k - 1) == id))
  }

  /** Task `id` was complete when it was added. */
  predicate AddedDone(log: seq<Event>, k: nat, id: nat)
    requires k <= |log|
  {
    k > 0 && (AddedDone(log, k - 1, id) || (log[k - 1].Add? && log[k - 1].done && AddsIn(log, k - 1) == id))
  }

  // ----- the slots hold what the log says

  /** A slot after a step holds the new task, or the old one with what it has just asked for. */
  lemma StepSlot(st: State, e: Event, i: nat)
    requires Inv(st) && Enabled(st, e) && i < |st.slots| == |Step(st, e).slots| && Step(st, e).slots[i].Live?
    ensures var slot := Step(st, e).slots[i];
      if e.Add? && slot.id == st.adds then slot == Live(st.adds, e.wake, e.done)
      else
        && st.slots[i].Live? && slot.id == st.slots[i].id < st.adds
        && slot.wake == (if e.Yield? && In(st, st.cursor, slot.id) then e.wake else st.slots[i].wake)
        && slot.done == (st.slots[i].done || (e == Finish && In(st, st.cursor, slot.id)))
  {}

  lemma StepTimes(st: State, e: Event)
    requires Enabled(st, e)
    ensures var after := Step(st, e);
      && after.adds == st.adds + (if e.Add? then 1 else 0)
      && after.time == (match e case Begin(now) => now case Look(now) => now case _ => st.time)
      && after.passStart == (if e.Begin? then e.now else st.passStart)
      && after.passAdds == (if e.Begin? then st.adds else st.passAdds)
      && after.addedDone == st.addedDone + (if e.Add? && e.done then {st.adds} else {})
  {}

  ghost predicate SlotIsAsked(size: nat, log: seq<Event>, k: nat, slot: Slot)
    requires k <= |log|
  {
    slot.Live? ==> slot.wake == Asked(size, log, k, slot.id) && slot.done == Finished(size, log, k, slot.id)
  }

  lemma {:induction false} StateIsLogged(size: nat, log: seq<Event>, k: nat)
    requires Run(size, log) && k <= |log|
    ensures var st := At(size, log, k);
      && st.adds == AddsIn(log, k) && st.time == Reading(log, k)
      && st.passStart == Reading(log, PassOf(log, k)) && st.passAdds == AddsIn(log, PassOf(log, k))
      && forall id: nat :: id in st.addedDone <==> AddedDone(log, k, id)
  {
    hide Step, Enabled;
    if k > 0 {
      StateIsLogged(size, log, k - 1);
      assert EnabledAt(size, log, k - 1);
      StepTimes(At(size, log, k - 1), log[k - 1]);
    }
  }

  /** What the log says of the times and ends of tasks concerns tasks that were added. */
  lemma {:induction false} FinishedWasAdded(size: nat, log: seq<Event>, k: nat, id: nat)
    requires Run(size, log) && k <= |log| && Finished(size, log, k, id)
    ensures id < AddsIn(log, k)
  {
    hide Inv;
    if Finished(size, log, k - 1, id) {
      FinishedWasAdded(size, log, k - 1, id);
    } else if Visits(size, log, k - 1, id) {
      var st := At(size, log, k - 1);
      RunKeepsInv(size, log, k - 1);
      StateIsLogged(size, log, k - 1);
      InOnce(st, st.cursor, st.cursor, id);
    }
  }

  /** In every run every slot holds the time that its task has asked for, and knows whether it has
      finished. */
  lemma {:induction false} SlotsAreAsked(size: nat, log: seq<Event>, k: nat, i: nat)
    requires Run(size, log) && k <= |log| && i < size
    ensures |At(size, log, k).slots| == size && SlotIsAsked(size, log, k, At(size, log, k).slots[i])
  {
    hide Step, Enabled, Inv, In;
    RunKeepsInv(size, log, k);
    if k > 0 {
      var st, e := At(size, log, k - 1), log[k - 1];
      SlotsAreAsked(size, log, k - 1, i);
      RunKeepsInv(size, log, k - 1);
      StateIsLogged(size, log, k - 1);
      assert EnabledAt(size, log, k - 1);
      if Step(st, e).slots[i].Live? {
        StepSlot(st, e, i);
        var id := Step(st, e).slots[i].id;
        if id == st.adds {
          if Finished(size, log, k - 1, id) { FinishedWasAdded(size, log, k - 1, id); }
          NotVisitedYet(st, id);
        }
      }
    }
  }

  lemma NotVisitedYet(st: State, id: nat)
    requires Inv(st) && id >= st.adds
    ensures !In(st, st.cursor, id)
  {}

  lemma Queued(size: nat, log: seq<Event>, k: nat, s: nat, id: nat)
    requires Run(size, log) && k <= |log| && In(At(size, log, k), s, id)
    ensures At(size, log, k).slots[s] == Live(id, Asked(size, log, k, id), Finished(size, log, k, id))
  {
    RunKeepsInv(size, log, k);
    SlotsAreAsked(size, log, k, s);
  }

  // ----- when tasks are resumed

  /** Only a task of the queue is resumed, not before the time that it has asked for, and not after it
      has finished, unless it was complete when it was added. */
  lemma ResumedWhenDue(size: nat, log: seq<Event>, k: nat)
    requires Run(size, log) && k < |log| && log[k] == Resume
    ensures exists id :: Visits(size, log, k, id)
    ensures forall id | Visits(size, log, k, id) ::
              && Asked(size, log, k, id) <= Reading(log, k)
              && (Finished(size, log, k, id) ==> AddedDone(log, k, id))
  {
    var st := At(size, log, k);
    RunKeepsInv(size, log, k);
    StateIsLogged(size, log, k);
    assert EnabledAt(size, log, k);
    VisitedIsLive(st);
    assert Visits(size, log, k, st.slots[st.cursor].id);
    Queued(size, log, k, st.cursor, st.slots[st.cursor].id);
  }

  /** The times that task `id` is resumed in a stretch of the log. */
  ghost function TimesResumed(size: nat, log: seq<Event>, p: nat, q: nat, id: nat): nat
    requires p <= q <= |log|
  {
    if p == q then 0
    else
      TimesResumed(size, log, p, q - 1, id) + if log[q - 1] == Resume && Visits(size, log, q - 1, id) then 1 else 0
  }

  /** The pass has come past slot `s`, or has resumed the task in it. */
  ghost predicate Passed(st: State, s: nat) {
    !st.inPass || st.cursor > s || (st.cursor == s && (st.phase == Running || st.phase == Ran))
  }

  lemma PassStep(st: State, e: Event, s: nat, id: nat)
    requires Inv(st) && Enabled(st, e) && s < |st.slots| && id < st.adds && !e.Begin? && e != Remove(s)
    requires if Passed(st, s) then true else HoldsDue(st, s, id)
    ensures Passed(st, s) ==> Passed(Step(st, e), s)
    ensures !Passed(st, s) ==>
              if Passed(Step(st, e), s) then e == Resume && In(st, st.cursor, id) else HoldsDue(Step(st, e), s, id)
    ensures !Passed(st, s) && e == Resume && In(st, st.cursor, id) ==> Passed(Step(st, e), s)
    ensures Passed(st, s) && e == Resume ==> st.cursor != s
  {}

  /** A task that is queued when a pass begins, and due then, is resumed exactly once in the pass, if
      nothing removes it: by the time the pass has come past its slot. */
  lemma {:induction false} DueTaskIsResumed(size: nat, log: seq<Event>, b: nat, k: nat, s: nat, id: nat)
    requires Run(size, log) && b < k <= |log| && log[b].Begin? && forall j | b < j < k :: !log[j].Begin?
    requires In(At(size, log, b), s, id) && Asked(size, log, b, id) <= log[b].now
    requires forall j | b < j < k :: log[j] != Remove(s)
    ensures var st := At(size, log, k);
      if Passed(st, s) then TimesResumed(size, log, b, k, id) == 1
      else HoldsDue(st, s, id) && TimesResumed(size, log, b, k, id) == 0
    decreases k
  {
    hide Step, Enabled, Inv;
    var st, e := At(size, log, k - 1), log[k - 1];
    RunKeepsInv(size, log, k - 1);
    assert EnabledAt(size, log, k - 1);
    if k == b + 1 {
      Queued(size, log, b, s, id);
      PassBegins(st, e, s, id);
    } else {
      DueTaskIsResumed(size, log, b, k - 1, s, id);
      RunKeepsInv(size, log, b);
      InOnce(At(size, log, b), s, s, id);
      AddsGrow(size, log, b, k - 1);
      PassStep(st, e, s, id);
      if e == Resume && In(st, st.cursor, id) { KeepsSlot(size, log, b, k - 1, s, st.cursor, id); }
    }
  }

  lemma PassBegins(st: State, e: Event, s: nat, id: nat)
    requires Inv(st) && Enabled(st, e) && e.Begin? && In(st, s, id) && st.slots[s].wake <= e.now
    ensures !Passed(Step(st, e), s) && HoldsDue(Step(st, e), s, id)
  {}

  // ----- sleeping

  /** The sleep that is the `k`th event ends neither more than five seconds from the start of the pass,
      nor past the time asked for by a queued task that has been visited or was added before the pass. */
  ghost predicate SafeSleep(size: nat, log: seq<Event>, k: nat)
    requires k < |log|
  {
    log[k].Sleep? ==>
      && log[k].until <= Reading(log, PassOf(log, k)) + SLEEP_CAP
      && forall id: nat | InQueue(At(size, log, k), id)
                          && (Looked(size, log, k, id) || id < AddsIn(log, PassOf(log, k))) ::
           log[k].until <= Asked(size, log, k, id)
  }

  /** Task `id` has been visited. */
  ghost predicate Looked(size: nat, log: seq<Event>, k: nat, id: nat)
    requires k <= |log|
  {
    exists j | 0 <= j < k :: log[j].Look? && Visits(size, log, j, id)
  }

  lemma StepSeen(st: State, e: Event, s: nat, id: nat)
    requires Inv(st) && Enabled(st, e) && id < st.adds && In(Step(st, e), s, id)
    ensures s in st.seen ==> s in Step(st, e).seen
    ensures e.Look? && In(st, st.cursor, id) ==> s in Step(st, e).seen
  {}

  /** A slot whose task has been visited counts as seen. */
  lemma {:induction false} LookedIsSeen(size: nat, log: seq<Event>, j: nat, k: nat, s: nat, id: nat)
    requires Run(size, log) && j < k <= |log| && log[j].Look? && Visits(size, log, j, id)
    requires In(At(size, log, k), s, id)
    ensures s in At(size, log, k).seen
    decreases k
  {
    hide Step, Enabled, Inv;
    var st := At(size, log, k - 1);
    RunKeepsInv(size, log, j);
    InOnce(At(size, log, j), At(size, log, j).cursor, At(size, log, j).cursor, id);
    AddsGrow(size, log, j, k - 1);
    RunKeepsInv(size, log, k - 1);
    assert EnabledAt(size, log, k - 1);
    if j < k - 1 {
      StepKeepsSlot(st, log[k - 1], s, id);
      LookedIsSeen(size, log, j, k - 1, s, id);
    }
    StepSeen(st, log[k - 1], s, id);
  }

  lemma SeenIsAwaited(st: State, s: nat, id: nat)
    requires Inv(st) && !st.inPass && In(st, s, id) && (s in st.seen || id < st.passAdds)
    ensures st.next <= st.slots[s].wake
  {}

  lemma SleepIsSafe(size: nat, log: seq<Event>, k: nat)
    requires Run(size, log) && k < |log|
    ensures SafeSleep(size, log, k)
  {
    hide Step, Inv, In;
    if log[k].Sleep? {
      var st := At(size, log, k);
      RunKeepsInv(size, log, k);
      StateIsLogged(size, log, k);
      assert EnabledAt(size, log, k);
      assert st.next <= st.passStart + SLEEP_CAP by { NextIsCapped(st); }
      forall id: nat | InQueue(st, id) && (Looked(size, log, k, id) || id < AddsIn(log, PassOf(log, k)))
        ensures log[k].until <= Asked(size, log, k, id)
      {
        var s :| 0 <= s < |st.slots| && In(st, s, id);
        if Looked(size, log, k, id) {
          var j :| 0 <= j < k && log[j].Look? && Visits(size, log, j, id);
          LookedIsSeen(size, log, j, k, s, id);
        }
        SeenIsAwaited(st, s, id);
        Queued(size, log, k, s, id);
      }
    }
  }

  lemma NextIsCapped(st: State)
    requires Inv(st)
    ensures st.next <= st.passStart + SLEEP_CAP
  {}

  /** At the end of its visit a task that has not finished wants to be woken at the time `wake`. */
  ghost predicate Wanted(size: nat, log: seq<Event>, k: nat, id: nat, wake: int)
    requires k < |log|
  {
    log[k] == Settle && Visits(size, log, k, id) && !Finished(size, log, k, id) && wake == Asked(size, log, k, id)
  }

  lemma NextStep(st: State, e: Event)
    requires Enabled(st, e)
    ensures Step(st, e).next ==
            if e.Begin? then e.now + SLEEP_CAP
            else if e == Settle && Current(st).Live? && !Current(st).done then Min(st.next, Current(st).wake)
            else st.next
  {}

  /** The time that a pass finds is the least of the cap and the times that its tasks asked for when
      they had been visited: nothing is slept past, and the scheduler does not wake for nothing. */
  lemma {:induction false} NextIsWanted(size: nat, log: seq<Event>, k: nat)
    requires Run(size, log) && k <= |log| && PassOf(log, k) > 0
    ensures var b, next := PassOf(log, k), At(size, log, k).next;
      && next <= Reading(log, b) + SLEEP_CAP
      && (forall j, id, wake | b <= j < k && Wanted(size, log, j, id, wake) :: next <= wake)
      && (next == Reading(log, b) + SLEEP_CAP || exists j, id | b <= j < k :: Wanted(size, log, j, id, next))
  {
    hide Step, Enabled, Inv;
    var last, b := k - 1, PassOf(log, k);
    var st, e := At(size, log, last), log[last];
    assert EnabledAt(size, log, last);
    NextStep(st, e);
    if !e.Begin? {
      NextIsWanted(size, log, last);
      var next := At(size, log, k).next;
      if e == Settle {
        RunKeepsInv(size, log, last);
        SettleVisits(st);
        var id := Current(st).id;
        Queued(size, log, last, st.cursor, id);
        if next != st.next { assert Wanted(size, log, last, id, next); }
      }
      if next == st.next && next != Reading(log, b) + SLEEP_CAP {
        var j, other :| b <= j < last && Wanted(size, log, j, other, next);
        assert b <= j < k && Wanted(size, log, j, other, next);
      }
    }
  }

  lemma SettleVisits(st: State)
    requires Inv(st) && Enabled(st, Settle)
    ensures Current(st).Live? && In(st, st.cursor, Current(st).id)
  {}

  // ----- which tasks are in the queue

  /** Task `id` leaves the queue: it has finished and its visit is over, or it is removed. */
  ghost predicate Leaves(size: nat, log: seq<Event>, k: nat, id: nat)
    requires k < |log|
  {
    match log[k]
    case Settle => Visits(size, log, k, id) && Finished(size, log, k, id)
    case Remove(slot) => In(At(size, log, k), slot, id)
    case _ => false
  }

  /** A task is in the queue from when it is added until it leaves. */
  lemma {:induction false} QueuedUntilItLeaves(size: nat, log: seq<Event>, k: nat, id: nat)
    requires Run(size, log) && k <= |log|
    ensures InQueue(At(size, log, k), id) <==> id < AddsIn(log, k) && forall j | 0 <= j < k :: !Leaves(size, log, j, id)
  {
    hide Step, Enabled, Inv, In;
    StateIsLogged(size, log, k);
    if k > 0 {
      var last := k - 1;
      var st := At(size, log, last);
      QueuedUntilItLeaves(size, log, last, id);
      RunKeepsInv(size, log, last);
      StateIsLogged(size, log, last);
      assert EnabledAt(size, log, last);
      StepDestroys(st, log[last], id);
      LeavesIsDestroyed(size, log, last, id);
      if id >= AddsIn(log, last) { NotAddedYet(size, log, last, id); }
    } else {
      NothingQueued(size, id);
    }
  }

  lemma NothingQueued(size: nat, id: nat)
    ensures !InQueue(Initial(size), id)
  {}

  lemma LeavesIsDestroyed(size: nat, log: seq<Event>, k: nat, id: nat)
    requires Run(size, log) && k < |log|
    ensures Leaves(size, log, k, id) <==> Destroys(At(size, log, k), log[k], id)
  {
    if Visits(size, log, k, id) { Queued(size, log, k, At(size, log, k).cursor, id); }
  }

  lemma NotAddedYet(size: nat, log: seq<Event>, k: nat, id: nat)
    requires Run(size, log) && k < |log| && id >= AddsIn(log, k)
    ensures forall j | 0 <= j <= k :: !Leaves(size, log, j, id)
  {
    hide Step, Enabled, Inv;
    StateIsLogged(size, log, k);
    forall j | 0 <= j <= k ensures !Leaves(size, log, j, id) {
      AddsGrow(size, log, j, k);
      RunKeepsInv(size, log, j);
      var st := At(size, log, j);
      if In(st, st.cursor, id) { InOnce(st, st.cursor, st.cursor, id); }
      if log[j].Remove? && In(st, log[j].slot, id) { InOnce(st, log[j].slot, log[j].slot, id); }
    }
  }

  /** A task that has finished is gone from the queue as soon as its visit is over. */
  lemma FinishedIsGone(size: nat, log: seq<Event>, k: nat, id: nat)
    requires Run(size, log) && k <= |log| && Finished(size, log, k, id) && InQueue(At(size, log, k), id)
    ensures var st := At(size, log, k); AddedDone(log, k, id) || (st.phase == Ran && In(st, st.cursor, id))
  {
    var st := At(size, log, k);
    RunKeepsInv(size, log, k);
    StateIsLogged(size, log, k);
    var s :| 0 <= s < |st.slots| && In(st, s, id);
    Queued(size, log, k, s, id);
  }
}
