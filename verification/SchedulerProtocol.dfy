/** The cooperative scheduler of `system/scheduler.h` as a machine over events: what it may do when,
    and what holds in every run, for tasks that do whatever they like. */
module SchedulerProtocol {
  /** A slot of the task queue. A coroutine is known by the number of tasks added before it. */
  datatype Slot = Empty | Live(id: nat, wake: int, done: bool)

  /** Where the visit of the slot under the cursor stands. */
  datatype Phase = Idle | Due | Running | Ran

  /** `seen` are the slots visited since their task was added, `time` is the last clock reading,
      `next` the wake-up time that the pass has found so far. `passAdds` counts the tasks added before
      the pass, `passes` the passes and `sleeps` the sleeps. `addedDone` are the tasks that were
      complete when they were added. */
  datatype State = State(
    slots: seq<Slot>, cursor: nat, inPass: bool, phase: Phase, time: nat, passStart: nat, passAdds: nat, next: int,
    passes: nat, sleeps: nat, adds: nat, seen: set<nat>, addedDone: set<nat>)

  datatype Event =
    | Begin(now: nat)
    | Skip
    | Look(now: nat)
    | Resume
    | Yield(wake: int)
    | Finish
    | Settle
    | Add(wake: int, done: bool)
    | Remove(slot: nat)
    | Stop
    | Sleep(until: int)

  /** Five seconds, in the microseconds of the clock. */
  const SLEEP_CAP: int := 5_000_000

  function Initial(size: nat): State {
    State(seq(size, _ => Empty), 0, false, Idle, 0, 0, 0, 0, 0, 0, 0, {}, {})
  }

  function FirstEmpty(slots: seq<Slot>): (i: nat)
    ensures i <= |slots| && (i < |slots| ==> slots[i].Empty?)
    ensures forall k | 0 <= k < i :: slots[k].Live?
  {
    if slots == [] || slots[0].Empty? then 0 else 1 + FirstEmpty(slots[1..])
  }

  function Min(a: int, b: int): int {
    if b < a then b else a
  }

  /** Tasks are added and removed between passes, or by a running task, which cannot remove itself. */
  ghost predicate CallsAllowed(st: State) {
    st.phase == Running || (st.phase == Idle && !st.inPass)
  }

  ghost predicate Enabled(st: State, e: Event) {
    match e
    case Begin(now) => st.phase == Idle && !st.inPass && now >= st.time
    case Skip => st.phase == Idle && st.inPass && st.cursor < |st.slots| && st.slots[st.cursor].Empty?
    case Look(now) =>
      st.phase == Idle && st.inPass && st.cursor < |st.slots| && st.slots[st.cursor].Live? && now >= st.time
    case Resume => st.phase == Due
    case Yield(wake) => st.phase == Running
    case Finish => st.phase == Running
    case Settle => st.phase == Ran
    case Add(wake, done) => CallsAllowed(st) && FirstEmpty(st.slots) < |st.slots|
    case Remove(slot) => CallsAllowed(st) && slot < |st.slots| && (st.phase == Running ==> slot != st.cursor)
    case Stop => true
    case Sleep(until) => st.phase == Idle && !st.inPass && until == st.next
  }

  /** The slot under the cursor. */
  ghost function Current(st: State): Slot {
    if st.cursor < |st.slots| then st.slots[st.cursor] else Empty
  }

  ghost function WithCurrent(st: State, slot: Slot): State {
    if st.cursor < |st.slots| then st.(slots := st.slots[st.cursor := slot]) else st
  }

  /** On to the next slot; after the last one the pass is over. */
  ghost function Advance(st: State): State {
    if st.cursor + 1 < |st.slots| then st.(cursor := st.cursor + 1, phase := Idle)
    else st.(cursor := 0, phase := Idle, inPass := false)
  }

  ghost function Step(st: State, e: Event): State {
    match e
    case Begin(now) =>
      st.(inPass := |st.slots| > 0, time := now, passStart := now, passAdds := st.adds, next := now + SLEEP_CAP,
          passes := st.passes + 1)
    case Skip => Advance(st)
    case Look(now) =>
      st.(time := now, seen := st.seen + {st.cursor},
          phase := if Current(st).Live? && Current(st).wake <= now then Due else Ran)
    case Resume => st.(phase := Running)
    case Yield(wake) => WithCurrent(st, if Current(st).Live? then Current(st).(wake := wake) else Empty).(phase := Ran)
    case Finish => WithCurrent(st, if Current(st).Live? then Current(st).(done := true) else Empty).(phase := Ran)
    case Settle =>
      if Current(st).Live? && !Current(st).done then Advance(st.(next := Min(st.next, Current(st).wake)))
      else Advance(WithCurrent(st, Empty))
    case Add(wake, done) =>
      var i := FirstEmpty(st.slots);
      if i < |st.slots| then
        st.(slots := st.slots[i := Live(st.adds, wake, done)], adds := st.adds + 1, seen := st.seen - {i},
            addedDone := if done then st.addedDone + {st.adds} else st.addedDone)
      else st
    case Remove(slot) => if slot < |st.slots| then st.(slots := st.slots[slot := Empty]) else st
    case Stop => st
    case Sleep(until) => st.(sleeps := st.sleeps + 1)
  }

  /** The state after the first `k` events of a log. */
  ghost function At(size: nat, log: seq<Event>, k: nat): State
    requires k <= |log|
  {
    if k == 0 then Initial(size) else Step(At(size, log, k - 1), log[k - 1])
  }

  ghost function After(size: nat, log: seq<Event>): State {
    At(size, log, |log|)
  }

  ghost predicate EnabledAt(size: nat, log: seq<Event>, k: nat)
    requires k < |log|
  {
    Enabled(At(size, log, k), log[k])
  }

  /** A run of the scheduler. */
  ghost predicate Run(size: nat, log: seq<Event>) {
    forall k | 0 <= k < |log| :: EnabledAt(size, log, k)
  }

  lemma {:induction false} SamePrefix(size: nat, log: seq<Event>, more: seq<Event>, k: nat)
    requires k <= |log| && log <= more
    ensures At(size, more, k) == At(size, log, k)
  {
    if k > 0 { SamePrefix(size, log, more, k - 1); }
  }

  /** A run goes on with an enabled event. */
  lemma RunGoesOn(size: nat, log: seq<Event>, e: Event, more: seq<Event>)
    requires Run(size, log) && Enabled(After(size, log), e) && more == log + [e]
    ensures Run(size, more) && After(size, more) == Step(After(size, log), e)
  {
    hide Step, Enabled;
    SamePrefix(size, log, more, |log|);
    forall k | 0 <= k < |more| ensures EnabledAt(size, more, k) {
      SamePrefix(size, log, more, if k < |log| then k else |log|);
      if k < |log| { assert EnabledAt(size, log, k); }
    }
  }

  // ----- what holds in every state

  /** Tasks are numbered without repetition. */
  ghost predicate NumbersInv(st: State) {
    && (forall i | 0 <= i < |st.slots| && st.slots[i].Live? :: st.slots[i].id < st.adds)
    && (forall i, j | 0 <= i < j < |st.slots| && st.slots[i].Live? && st.slots[j].Live? ::
          st.slots[i].id != st.slots[j].id)
    && (forall id <- st.addedDone :: id < st.adds)
  }

  ghost predicate CursorInv(st: State) {
    && (st.inPass ==> st.cursor < |st.slots|) && (!st.inPass ==> st.cursor == 0)
    && (st.phase != Idle ==> st.inPass && st.slots[st.cursor].Live? && st.cursor in st.seen)
    && (st.phase == Due ==> st.slots[st.cursor].wake <= st.time)
  }

  /** Only the task that has just run can be complete, unless it was added so. */
  ghost predicate DoneInv(st: State) {
    forall i | 0 <= i < |st.slots| && st.slots[i].Live? && st.slots[i].done ::
      st.slots[i].id in st.addedDone || (st.phase == Ran && i == st.cursor)
  }

  /** No task that the pass has visited wakes before the time found so far. */
  ghost predicate WakeInv(st: State) {
    && st.next <= st.passStart + SLEEP_CAP
    && forall i | 0 <= i < |st.slots| && st.slots[i].Live? && i in st.seen && (!st.inPass || i < st.cursor) ::
         st.next <= st.slots[i].wake
  }

  /** What the pass has not seen was added behind its back, during the pass or after it. */
  ghost predicate SeenInv(st: State) {
    forall i | 0 <= i < |st.slots| && st.slots[i].Live? && i !in st.seen && (!st.inPass || i < st.cursor) ::
      st.slots[i].id >= st.passAdds
  }

  ghost predicate Inv(st: State) {
    NumbersInv(st) && CursorInv(st) && DoneInv(st) && WakeInv(st) && SeenInv(st) && st.passAdds <= st.adds
  }

  lemma StepKeepsSize(st: State, e: Event)
    requires Enabled(st, e)
    ensures |Step(st, e).slots| == |st.slots|
  {}

  /** Where a task is after a step, it was before, or it has just been added there. */
  lemma SlotAfter(st: State, e: Event, i: nat)
    requires Enabled(st, e) && i < |st.slots|
    ensures var after := Step(st, e);
      && |after.slots| == |st.slots| && (after.slots[i].Live? ==>
            if e.Add? && i == FirstEmpty(st.slots) then after.slots[i].id == st.adds
            else st.slots[i].Live? && after.slots[i].id == st.slots[i].id)
  {}

  lemma StepNumbers(st: State, e: Event)
    requires Enabled(st, e)
    ensures var after := Step(st, e);
      && after.adds == st.adds + (if e.Add? then 1 else 0)
      && after.addedDone <= st.addedDone + if e.Add? then {st.adds} else {}
  {}

  lemma StepKeepsNumbers(st: State, e: Event)
    requires NumbersInv(st) && Enabled(st, e)
    ensures NumbersInv(Step(st, e))
  {
    hide Step, Enabled;
    StepKeepsSize(st, e);
    StepNumbers(st, e);
    forall i | 0 <= i < |st.slots|
      ensures Step(st, e).slots[i].Live? ==>
                if e.Add? && i == FirstEmpty(st.slots) then Step(st, e).slots[i].id == st.adds
                else st.slots[i].Live? && Step(st, e).slots[i].id == st.slots[i].id
    {
      SlotAfter(st, e, i);
    }
  }

  lemma StepKeepsCursor(st: State, e: Event)
    requires CursorInv(st) && Enabled(st, e)
    ensures CursorInv(Step(st, e))
  {}

  lemma StepKeepsDone(st: State, e: Event)
    requires NumbersInv(st) && CursorInv(st) && DoneInv(st) && Enabled(st, e)
    ensures DoneInv(Step(st, e))
  {}

  lemma StepKeepsWake(st: State, e: Event)
    requires CursorInv(st) && WakeInv(st) && Enabled(st, e)
    ensures WakeInv(Step(st, e))
  {}

  lemma StepKeepsSeen(st: State, e: Event)
    requires NumbersInv(st) && CursorInv(st) && SeenInv(st) && st.passAdds <= st.adds && Enabled(st, e)
    ensures SeenInv(Step(st, e)) && Step(st, e).passAdds <= Step(st, e).adds
  {}

  lemma StepKeepsInv(st: State, e: Event)
    requires Inv(st) && Enabled(st, e)
    ensures Inv(Step(st, e)) && |Step(st, e).slots| == |st.slots|
  {
    hide Step, Enabled, NumbersInv, CursorInv, DoneInv, WakeInv, SeenInv;
    StepKeepsSize(st, e);
    StepKeepsNumbers(st, e);
    StepKeepsCursor(st, e);
    StepKeepsDone(st, e);
    StepKeepsWake(st, e);
    StepKeepsSeen(st, e);
  }

  /** While a slot is being visited, there is a task in it. */
  lemma VisitedIsLive(st: State)
    requires Inv(st) && st.phase != Idle
    ensures st.inPass && st.cursor < |st.slots| && st.slots[st.cursor].Live?
  {}

  lemma CursorInside(st: State)
    requires Inv(st) && st.inPass
    ensures st.cursor < |st.slots|
  {}

  lemma InitialInv(size: nat)
    ensures Inv(Initial(size)) && |Initial(size).slots| == size
  {}

  lemma {:induction false} RunKeepsInv(size: nat, log: seq<Event>, k: nat)
    requires Run(size, log) && k <= |log|
    ensures Inv(At(size, log, k)) && |At(size, log, k).slots| == size
  {
    hide Step, Enabled, Inv, Initial;
    if k == 0 {
      InitialInv(size);
    } else {
      RunKeepsInv(size, log, k - 1);
      assert EnabledAt(size, log, k - 1);
      StepKeepsInv(At(size, log, k - 1), log[k - 1]);
    }
  }

  // ----- how often tasks are resumed

  /** How many visits begin before the next visit of slot `x`. */
  ghost function VisitsBefore(st: State, x: nat): int {
    var base := if st.phase == Idle then st.cursor else st.cursor + 1;
    if x >= base then x - base else x + |st.slots| - base
  }

  /** The times that a slot is resumed in a stretch of the log. */
  ghost function ResumesOf(size: nat, log: seq<Event>, p: nat, q: nat, slot: nat): nat
    requires p <= q <= |log|
  {
    if p == q then 0
    else
      ResumesOf(size, log, p, q - 1, slot)
      + if log[q - 1] == Resume && At(size, log, q - 1).cursor == slot then 1 else 0
  }

  /** Slot `s` holds the due task `id`. */
  ghost predicate HoldsDue(st: State, s: nat, id: nat) {
    s < |st.slots| && st.slots[s].Live? && st.slots[s].id == id && st.slots[s].wake <= st.time
  }

  ghost predicate BypassInv(st: State, s: nat, t: nat, resumed: nat) {
    && resumed <= 1
    && (resumed == 1 && st.phase != Idle && st.cursor == s ==> st.phase == Due)
    && (resumed == 1 ==> (st.phase == Due && st.cursor == s) || VisitsBefore(st, s) < VisitsBefore(st, t))
    && (resumed == 1 && st.cursor == t ==> st.phase != Due)
  }

  lemma BypassStep(st: State, e: Event, s: nat, t: nat, id: nat, resumed: nat)
    requires Inv(st) && Enabled(st, e) && s < |st.slots| && t < |st.slots| && s != t
    requires HoldsDue(st, s, id) && BypassInv(st, s, t, resumed)
    requires !(e == Resume && st.cursor == s)
    ensures BypassInv(Step(st, e), s, t, resumed + if e == Resume && st.cursor == t then 1 else 0)
  {}

  /** Between a task becoming due and its being resumed or removed, every other slot is resumed at
      most once. */
  lemma {:induction false} ResumedAtMostOnce(size: nat, log: seq<Event>, p: nat, q: nat, s: nat, t: nat, id: nat)
    requires Run(size, log) && p <= q <= |log| && s < size && t < size && s != t
    requires forall k | p <= k <= q :: HoldsDue(At(size, log, k), s, id)
    requires ResumesOf(size, log, p, q, s) == 0
    ensures ResumesOf(size, log, p, q, t) <= 1
    ensures BypassInv(At(size, log, q), s, t, ResumesOf(size, log, p, q, t))
    decreases q
  {
    hide Step, Enabled, Inv;
    if p < q {
      var last := q - 1;
      ResumedAtMostOnce(size, log, p, last, s, t, id);
      var st, resumed := At(size, log, last), ResumesOf(size, log, p, last, t);
      RunKeepsInv(size, log, last);
      assert EnabledAt(size, log, last) && HoldsDue(st, s, id);
      BypassStep(st, log[last], s, t, id, resumed);
    }
  }

  // ----- tasks in the queue

  ghost function CountLive(slots: seq<Slot>): nat {
    if slots == [] then 0 else CountLive(slots[..|slots| - 1]) + if slots[|slots| - 1].Live? then 1 else 0
  }

  lemma {:induction false} CountLiveUpdate(slots: seq<Slot>, i: nat, slot: Slot)
    requires i < |slots|
    ensures CountLive(slots[i := slot])
            == CountLive(slots) + (if slot.Live? then 1 else 0) - (if slots[i].Live? then 1 else 0)
  {
    var n := |slots| - 1;
    if i < n {
      CountLiveUpdate(slots[..n], i, slot);
      assert slots[i := slot][..n] == slots[..n][i := slot];
    } else {
      assert slots[i := slot][..n] == slots[..n];
    }
  }

  /** What an event does to the number of queued tasks: additions, completions, removals. */
  ghost function Gain(st: State, e: Event): int {
    match e
    case Add(_, _) => 1
    case Settle => if Current(st).Live? && Current(st).done then -1 else 0
    case Remove(slot) => if slot < |st.slots| && st.slots[slot].Live? then -1 else 0
    case _ => 0
  }

  ghost function TotalGain(size: nat, log: seq<Event>, k: nat): int
    requires k <= |log|
  {
    if k == 0 then 0 else TotalGain(size, log, k - 1) + Gain(At(size, log, k - 1), log[k - 1])
  }

  lemma StepCounts(st: State, e: Event)
    requires Inv(st) && Enabled(st, e)
    ensures CountLive(Step(st, e).slots) == CountLive(st.slots) + Gain(st, e)
  {
    if st.cursor < |st.slots| {
      match e {
        case Yield(wake) => CountLiveUpdate(st.slots, st.cursor, Step(st, e).slots[st.cursor]);
        case Finish => CountLiveUpdate(st.slots, st.cursor, Step(st, e).slots[st.cursor]);
        case Settle => CountLiveUpdate(st.slots, st.cursor, Empty);
        case _ =>
      }
    }
    match e {
      case Add(wake, done) =>
        CountLiveUpdate(st.slots, FirstEmpty(st.slots), Live(st.adds, wake, done));
      case Remove(slot) => CountLiveUpdate(st.slots, slot, Empty);
      case _ =>
    }
  }

  lemma {:induction false} CountLiveOfEmpty(size: nat)
    ensures CountLive(Initial(size).slots) == 0
  {
    if size > 0 {
      CountLiveOfEmpty(size - 1);
      assert Initial(size).slots[..size - 1] == Initial(size - 1).slots;
    }
  }

  /** In every run the number of queued tasks is additions less completions less removals. */
  lemma {:induction false} QueueSizeBalances(size: nat, log: seq<Event>, k: nat)
    requires Run(size, log) && k <= |log|
    ensures CountLive(At(size, log, k).slots) == TotalGain(size, log, k)
  {
    hide Step, Enabled, Inv;
    if k == 0 {
      CountLiveOfEmpty(size);
    } else {
      QueueSizeBalances(size, log, k - 1);
      RunKeepsInv(size, log, k - 1);
      assert EnabledAt(size, log, k - 1);
      StepCounts(At(size, log, k - 1), log[k - 1]);
    }
  }

  /** The task `id` is in slot `s`. */
  ghost predicate In(st: State, s: nat, id: nat) {
    s < |st.slots| && st.slots[s].Live? && st.slots[s].id == id
  }

  ghost predicate InQueue(st: State, id: nat) {
    exists s | 0 <= s < |st.slots| :: In(st, s, id)
  }

  lemma StepKeepsSlot(st: State, e: Event, s: nat, id: nat)
    requires Inv(st) && Enabled(st, e) && id < st.adds && In(Step(st, e), s, id)
    ensures In(st, s, id)
  {}

  lemma {:induction false} AddsGrow(size: nat, log: seq<Event>, p: nat, q: nat)
    requires Run(size, log) && p <= q <= |log|
    ensures At(size, log, p).adds <= At(size, log, q).adds
    decreases q
  {
    if p < q {
      AddsGrow(size, log, p, q - 1);
      assert EnabledAt(size, log, q - 1);
    }
  }

  /** A queued task has a number already given out, and one slot. */
  lemma InOnce(st: State, s: nat, s2: nat, id: nat)
    requires Inv(st) && In(st, s, id) && In(st, s2, id)
    ensures s == s2 && id < st.adds
  {}

  /** A live task stays in its slot: later on it is there or nowhere. */
  lemma {:induction false} KeepsSlot(size: nat, log: seq<Event>, p: nat, q: nat, s: nat, s2: nat, id: nat)
    requires Run(size, log) && p <= q <= |log|
    requires In(At(size, log, p), s, id) && In(At(size, log, q), s2, id)
    ensures s == s2
    decreases q
  {
    hide Step, Enabled, Inv;
    RunKeepsInv(size, log, p);
    InOnce(At(size, log, p), s, if p == q then s2 else s, id);
    if p < q {
      RunKeepsInv(size, log, q - 1);
      AddsGrow(size, log, p, q - 1);
      assert EnabledAt(size, log, q - 1);
      StepKeepsSlot(At(size, log, q - 1), log[q - 1], s2, id);
      KeepsSlot(size, log, p, q - 1, s, s2, id);
    }
  }

  /** The coroutine that an event destroys, if any. */
  ghost predicate Destroys(st: State, e: Event, id: nat) {
    match e
    case Settle => In(st, st.cursor, id) && st.slots[st.cursor].done
    case Remove(slot) => In(st, slot, id)
    case _ => false
  }

  ghost function TimesDestroyed(size: nat, log: seq<Event>, k: nat, id: nat): nat
    requires k <= |log|
  {
    if k == 0 then 0
    else TimesDestroyed(size, log, k - 1, id) + if Destroys(At(size, log, k - 1), log[k - 1], id) then 1 else 0
  }

  lemma StepDestroys(st: State, e: Event, id: nat)
    requires Inv(st) && Enabled(st, e)
    ensures id == st.adds && e.Add? ==> InQueue(Step(st, e), id)
    ensures id != st.adds || !e.Add? ==>
              (InQueue(Step(st, e), id) <==> InQueue(st, id) && !Destroys(st, e, id))
    ensures Destroys(st, e, id) ==> InQueue(st, id)
    ensures Step(st, e).adds == st.adds + (if e.Add? then 1 else 0) && (InQueue(st, id) ==> id < st.adds)
  {
    var after := Step(st, e);
    if e.Add? && id == st.adds {
      assert In(after, FirstEmpty(st.slots), id);
    } else {
      forall s | 0 <= s < |st.slots| && In(st, s, id) && !Destroys(st, e, id) ensures In(after, s, id) {}
      forall s | 0 <= s < |st.slots| && In(after, s, id) ensures In(st, s, id) && !Destroys(st, e, id) {}
    }
  }

  /** Every coroutine handed to the scheduler is owned by one slot until it is destroyed, and is
      destroyed once. */
  lemma {:induction false} DestroyedOnce(size: nat, log: seq<Event>, k: nat, id: nat)
    requires Run(size, log) && k <= |log|
    ensures var st := At(size, log, k);
      TimesDestroyed(size, log, k, id) == if id < st.adds && !InQueue(st, id) then 1 else 0
  {
    hide Step, Enabled, Inv;
    if k > 0 {
      var st := At(size, log, k - 1);
      DestroyedOnce(size, log, k - 1, id);
      RunKeepsInv(size, log, k - 1);
      assert EnabledAt(size, log, k - 1);
      StepDestroys(st, log[k - 1], id);
    }
  }
}
