/** Discrete-event time: which times a clock passes through on its way to a requested time, when the
    subsystems that hang on it have events of their own. */
module EventTimes {
  /** An event of a subsystem; when it happens, the subsystem plans the events that follow from it. */
  datatype Event = Event(time: int, followUps: seq<Event>)

  function Min(a: int, b: int): int {
    if b < a then b else a
  }

  /** The number of events that there will ever be. */
  function Size(pending: seq<Event>): nat {
    if pending == [] then 0 else Size(pending[..|pending| - 1]) + 1 + Size(pending[|pending| - 1].followUps)
  }

  function TotalSize(all: seq<seq<Event>>): nat {
    if all == [] then 0 else TotalSize(all[..|all| - 1]) + Size(all[|all| - 1])
  }

  /** The earliest of a time and the pending events. */
  function Earliest(pending: seq<Event>, time: int): int {
    if pending == [] then time else Min(Earliest(pending[..|pending| - 1], time), pending[|pending| - 1].time)
  }

  /** The next time of the clock. */
  function NextTime(all: seq<seq<Event>>, requested: int): int {
    if all == [] then requested
    else Earliest(all[|all| - 1], NextTime(all[..|all| - 1], requested))
  }

  /** Running a subsystem makes the events up to now happen, and plans their consequences. */
  function AfterRun(pending: seq<Event>, now: int): seq<Event> {
    if pending == [] then []
    else
      var e := pending[|pending| - 1];
      AfterRun(pending[..|pending| - 1], now) + if e.time <= now then e.followUps else [e]
  }

  function AfterRunAll(all: seq<seq<Event>>, now: int): (r: seq<seq<Event>>)
    ensures |r| == |all|
  {
    if all == [] then [] else AfterRunAll(all[..|all| - 1], now) + [AfterRun(all[|all| - 1], now)]
  }

  // ----- sizes and minima

  lemma {:induction false} SizeOfSum(a: seq<Event>, b: seq<Event>)
    ensures Size(a + b) == Size(a) + Size(b)
  {
    if b == [] {
      assert a + b == a;
    } else {
      assert (a + b)[..|a + b| - 1] == a + b[..|b| - 1];
      SizeOfSum(a, b[..|b| - 1]);
    }
  }

  lemma {:induction false} RunShrinks(pending: seq<Event>, now: int)
    ensures Size(AfterRun(pending, now)) <= Size(pending)
    ensures (exists e <- pending :: e.time <= now) ==> Size(AfterRun(pending, now)) < Size(pending)
  {
    if pending != [] {
      var n := |pending| - 1;
      var e := pending[n];
      RunShrinks(pending[..n], now);
      SizeOfSum(AfterRun(pending[..n], now), if e.time <= now then e.followUps else [e]);
      assert [e][..0] == [];
      if exists f <- pending :: f.time <= now && e.time > now {
        var f :| f in pending && f.time <= now && e.time > now;
        assert f in pending[..n];
      }
    }
  }

  /** Some event of some subsystem is due. */
  ghost predicate SomeDue(all: seq<seq<Event>>, now: int) {
    exists i | 0 <= i < |all| :: exists e <- all[i] :: e.time <= now
  }

  lemma {:induction false} RunAllShrinks(all: seq<seq<Event>>, now: int)
    ensures TotalSize(AfterRunAll(all, now)) <= TotalSize(all)
    ensures SomeDue(all, now) ==> TotalSize(AfterRunAll(all, now)) < TotalSize(all)
  {
    hide AfterRun, Size;
    if all != [] {
      var n := |all| - 1;
      RunAllShrinks(all[..n], now);
      RunShrinks(all[n], now);
      assert AfterRunAll(all, now)[..n] == AfterRunAll(all[..n], now);
      if SomeDue(all, now) {
        var i :| 0 <= i < |all| && exists e <- all[i] :: e.time <= now;
        if i < n { assert all[..n][i] == all[i]; assert SomeDue(all[..n], now); }
      }
    }
  }

  lemma {:induction false} EarliestIsLeast(pending: seq<Event>, time: int)
    ensures Earliest(pending, time) <= time
    ensures forall e <- pending :: Earliest(pending, time) <= e.time
    ensures Earliest(pending, time) == time || exists e <- pending :: e.time == Earliest(pending, time)
  {
    if pending != [] {
      var n := |pending| - 1;
      EarliestIsLeast(pending[..n], time);
      forall e <- pending ensures Earliest(pending, time) <= e.time {
        if e != pending[n] { assert e in pending[..n]; }
      }
      if Earliest(pending, time) != time && Earliest(pending, time) != pending[n].time {
        var e :| e in pending[..n] && e.time == Earliest(pending[..n], time);
        assert e in pending;
      }
    }
  }

  /** The clock never goes past a pending event, and stops early only for one. */
  lemma {:induction false} NextTimeIsLeast(all: seq<seq<Event>>, requested: int)
    ensures NextTime(all, requested) <= requested
    ensures forall i | 0 <= i < |all| :: forall e <- all[i] :: NextTime(all, requested) <= e.time
    ensures NextTime(all, requested) != requested ==> SomeDue(all, NextTime(all, requested))
  {
    if all != [] {
      var n := |all| - 1;
      var before := NextTime(all[..n], requested);
      NextTimeIsLeast(all[..n], requested);
      EarliestIsLeast(all[n], before);
      var t := NextTime(all, requested);
      forall i | 0 <= i < |all| ensures forall e <- all[i] :: t <= e.time {
        if i < n { assert all[..n][i] == all[i]; }
      }
      if t != requested {
        if t == before {
          var i :| 0 <= i < |all[..n]| && exists e <- all[..n][i] :: e.time <= before;
          assert all[i] == all[..n][i];
        } else {
          assert exists e <- all[n] :: e.time <= t;
        }
      }
    }
  }

  // ----- the way to the requested time

  /** The times that the clock takes on its way. */
  function Times(all: seq<seq<Event>>, requested: int): seq<int>
    decreases TotalSize(all)
  {
    var t := NextTime(all, requested);
    NextTimeIsLeast(all, requested);
    RunAllShrinks(all, t);
    [t] + if t == requested then [] else Times(AfterRunAll(all, t), requested)
  }

  /** What is pending in the end. */
  function Pending(all: seq<seq<Event>>, requested: int): seq<seq<Event>>
    decreases TotalSize(all)
  {
    var t := NextTime(all, requested);
    NextTimeIsLeast(all, requested);
    RunAllShrinks(all, t);
    if t == requested then AfterRunAll(all, t) else Pending(AfterRunAll(all, t), requested)
  }

  lemma {:induction false} EndsWhenRequested(all: seq<seq<Event>>, requested: int)
    ensures var times := Times(all, requested);
      times != [] && times[|times| - 1] == requested && forall k | 0 <= k < |times| - 1 :: times[k] < requested
    decreases TotalSize(all)
  {
    var t := NextTime(all, requested);
    NextTimeIsLeast(all, requested);
    if t != requested {
      RunAllShrinks(all, t);
      EndsWhenRequested(AfterRunAll(all, t), requested);
    }
  }

  // ----- order

  predicate Sorted(times: seq<int>) {
    forall i, j | 0 <= i < j < |times| :: times[i] <= times[j]
  }

  predicate NoneBefore(all: seq<seq<Event>>, time: int) {
    forall i | 0 <= i < |all| :: forall e <- all[i] :: time <= e.time
  }

  /** An event plans nothing before itself. */
  predicate Causal(e: Event) {
    forall f <- e.followUps :: e.time <= f.time && Causal(f)
  }

  predicate AllCausal(all: seq<seq<Event>>) {
    forall i | 0 <= i < |all| :: forall e <- all[i] :: Causal(e)
  }

  /** What is pending after a run was pending before, or follows from an event that has happened. */
  lemma {:induction false} AfterRunFrom(pending: seq<Event>, now: int, e: Event)
    requires e in AfterRun(pending, now)
    ensures (e in pending && now < e.time) || exists p <- pending :: p.time <= now && e in p.followUps
  {
    var n := |pending| - 1;
    if e in AfterRun(pending[..n], now) {
      AfterRunFrom(pending[..n], now, e);
      if !(e in pending && now < e.time) {
        var p :| p in pending[..n] && p.time <= now && e in p.followUps;
        assert p in pending;
      }
    } else {
      assert pending[n] in pending;
    }
  }

  lemma {:induction false} AfterRunAllAt(all: seq<seq<Event>>, now: int, i: nat)
    requires i < |all|
    ensures AfterRunAll(all, now)[i] == AfterRun(all[i], now)
  {
    if i < |all| - 1 { AfterRunAllAt(all[..|all| - 1], now, i); }
  }

  /** Running at a time before which nothing is pending leaves nothing pending before it. */
  lemma RunKeepsOrder(all: seq<seq<Event>>, now: int)
    requires NoneBefore(all, now) && AllCausal(all)
    ensures NoneBefore(AfterRunAll(all, now), now) && AllCausal(AfterRunAll(all, now))
  {
    var after := AfterRunAll(all, now);
    forall i | 0 <= i < |after| ensures forall e: Event <- after[i] :: now <= e.time && Causal(e) {
      AfterRunAllAt(all, now, i);
      forall e: Event <- after[i] ensures now <= e.time && Causal(e) {
        AfterRunFrom(all[i], now, e);
        if !(e in all[i] && now < e.time) {
          var p :| p in all[i] && p.time <= now && e in p.followUps;
          assert Causal(p);
        }
      }
    }
  }

  lemma {:induction false} TimesSorted(all: seq<seq<Event>>, requested: int)
    requires AllCausal(all)
    ensures Sorted(Times(all, requested))
    ensures NoneBefore(Pending(all, requested), requested) && AllCausal(Pending(all, requested))
    decreases TotalSize(all)
  {
    hide NextTime, AfterRunAll, TotalSize, SomeDue, Causal;
    var t := NextTime(all, requested);
    NextTimeIsLeast(all, requested);
    RunAllShrinks(all, t);
    assert NoneBefore(all, t);
    RunKeepsOrder(all, t);
    if t != requested {
      var after := AfterRunAll(all, t);
      TimesSorted(after, requested);
      FirstTime(after, requested, t);
    }
  }

  lemma FirstTime(all: seq<seq<Event>>, requested: int, t: int)
    requires NoneBefore(all, t) && t <= requested
    ensures Times(all, requested) != [] && t <= Times(all, requested)[0]
  {
    NextTimeIsLeast(all, requested);
    if NextTime(all, requested) != requested {
      var i :| 0 <= i < |all| && exists e <- all[i] :: e.time <= NextTime(all, requested);
      var e :| e in all[i] && e.time <= NextTime(all, requested);
    }
  }

  /** Simulated time never goes back exactly if the request is not in the past and no event is
      overdue. */
  lemma NeverGoesBack(all: seq<seq<Event>>, current: int, requested: int)
    requires AllCausal(all)
    ensures Sorted([current] + Times(all, requested)) <==> current <= requested && NoneBefore(all, current)
  {
    var times := Times(all, requested);
    TimesSorted(all, requested);
    EndsWhenRequested(all, requested);
    NextTimeIsLeast(all, requested);
    assert times[0] == NextTime(all, requested);
    if current <= requested && NoneBefore(all, current) {
      FirstTime(all, requested, current);
      forall k | 0 <= k < |times| ensures current <= times[k] {
        assert times[0] <= times[k];
      }
    }
    if Sorted([current] + times) {
      var path := [current] + times;
      assert path[0] == current && path[1] == times[0] && path[|times|] == requested;
    }
  }

  // ----- the events that happen

  function HappeningIn(pending: seq<Event>, now: int): seq<Event> {
    if pending == [] then []
    else
      var e := pending[|pending| - 1];
      HappeningIn(pending[..|pending| - 1], now) + if e.time <= now then [e] else []
  }

  function HappeningAt(all: seq<seq<Event>>, now: int): seq<Event> {
    if all == [] then [] else HappeningAt(all[..|all| - 1], now) + HappeningIn(all[|all| - 1], now)
  }

  /** All events that happen on the way to the requested time, in their order. */
  function Happened(all: seq<seq<Event>>, requested: int): seq<Event>
    decreases TotalSize(all)
  {
    var t := NextTime(all, requested);
    NextTimeIsLeast(all, requested);
    RunAllShrinks(all, t);
    HappeningAt(all, t) + if t == requested then [] else Happened(AfterRunAll(all, t), requested)
  }

  lemma {:induction false} HappeningInAre(pending: seq<Event>, now: int)
    ensures forall e <- HappeningIn(pending, now) :: e in pending && e.time <= now
  {
    if pending != [] { HappeningInAre(pending[..|pending| - 1], now); }
  }

  lemma {:induction false} HappeningAtAre(all: seq<seq<Event>>, now: int, low: int)
    requires NoneBefore(all, low)
    ensures forall e <- HappeningAt(all, now) :: low <= e.time <= now
  {
    if all != [] {
      var n := |all| - 1;
      assert NoneBefore(all[..n], low);
      HappeningAtAre(all[..n], now, low);
      HappeningInAre(all[n], now);
    }
  }

  predicate InOrder(events: seq<Event>) {
    forall i, j | 0 <= i < j < |events| :: events[i].time <= events[j].time
  }

  /** Events happen in the order of their times, whichever subsystem they belong to, and none happens
      late. */
  lemma {:induction false} HappenInOrder(all: seq<seq<Event>>, requested: int)
    requires AllCausal(all)
    ensures InOrder(Happened(all, requested))
    ensures forall e <- Happened(all, requested) :: NextTime(all, requested) <= e.time <= requested
    decreases TotalSize(all)
  {
    hide NextTime, AfterRunAll, TotalSize, SomeDue, Causal, HappeningAt;
    var t := NextTime(all, requested);
    NextTimeIsLeast(all, requested);
    RunAllShrinks(all, t);
    HappeningAtAre(all, t, t);
    if t != requested {
      var after := AfterRunAll(all, t);
      RunKeepsOrder(all, t);
      HappenInOrder(after, requested);
      FirstTime(after, requested, t);
    }
  }

  /** All events that there will ever be, each as often as there will be. */
  ghost function EventsOf(pending: seq<Event>): multiset<Event> {
    if pending == [] then multiset{}
    else
      var e := pending[|pending| - 1];
      EventsOf(pending[..|pending| - 1]) + multiset{e} + EventsOf(e.followUps)
  }

  ghost function AllEvents(all: seq<seq<Event>>): multiset<Event> {
    if all == [] then multiset{} else AllEvents(all[..|all| - 1]) + EventsOf(all[|all| - 1])
  }

  lemma {:induction false} EventsOfSum(a: seq<Event>, b: seq<Event>)
    ensures EventsOf(a + b) == EventsOf(a) + EventsOf(b)
  {
    if b == [] {
      assert a + b == a;
    } else {
      assert (a + b)[..|a + b| - 1] == a + b[..|b| - 1];
      EventsOfSum(a, b[..|b| - 1]);
    }
  }

  lemma EventsOfLast(pending: seq<Event>)
    requires pending != []
    ensures var n := |pending| - 1;
      EventsOf(pending) == EventsOf(pending[..n]) + multiset{pending[n]} + EventsOf(pending[n].followUps)
  {}

  lemma EventsOfOne(e: Event)
    ensures EventsOf([e]) == multiset{e} + EventsOf(e.followUps)
  {
    assert [e][..0] == [];
  }

  lemma {:induction false} EventsBalance(pending: seq<Event>, now: int)
    ensures EventsOf(pending) == multiset(HappeningIn(pending, now)) + EventsOf(AfterRun(pending, now))
  {
    if pending != [] {
      var n := |pending| - 1;
      var e := pending[n];
      var happening, after := HappeningIn(pending[..n], now), AfterRun(pending[..n], now);
      EventsOfLast(pending);
      EventsOfOne(e);
      hide EventsOf;
      EventsBalance(pending[..n], now);
      if e.time <= now {
        Regroup(multiset(happening), EventsOf(after), multiset{e}, EventsOf(e.followUps));
        EventsOfSum(after, e.followUps);
      } else {
        Regroup(multiset(happening), EventsOf(after), multiset{}, EventsOf([e]));
        EventsOfSum(after, [e]);
      }
    }
  }

  lemma Regroup(a: multiset<Event>, b: multiset<Event>, c: multiset<Event>, d: multiset<Event>)
    ensures (a + b) + c + d == (a + c) + (b + d) && (a + b) + (c + d) == (a + c) + (b + d)
  {}

  lemma {:induction false} AllEventsBalance(all: seq<seq<Event>>, now: int)
    ensures AllEvents(all) == multiset(HappeningAt(all, now)) + AllEvents(AfterRunAll(all, now))
  {
    if all != [] {
      var n := |all| - 1;
      AllEventsBalance(all[..n], now);
      EventsBalance(all[n], now);
      assert AfterRunAll(all, now)[..n] == AfterRunAll(all[..n], now);
    }
  }

  /** No event is lost, and none happens twice: those that there will ever be are exactly those that
      have happened and those that are still to come, each as often. */
  lemma {:induction false} NoEventLost(all: seq<seq<Event>>, requested: int)
    ensures AllEvents(all) == multiset(Happened(all, requested)) + AllEvents(Pending(all, requested))
    decreases TotalSize(all)
  {
    var t := NextTime(all, requested);
    NextTimeIsLeast(all, requested);
    RunAllShrinks(all, t);
    AllEventsBalance(all, t);
    if t != requested { NoEventLost(AfterRunAll(all, t), requested); }
  }
}
