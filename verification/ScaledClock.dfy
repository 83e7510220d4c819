/** The clock that subsystems hang on (`time/scaled_clock.h`, `time/clockable.h`). Times are integers;
    the scale factor is a natural number, 0 for the mock clock. */
module ScaledClock {
  import opened EventTimes

  class Clockable {
    var pending: seq<Event>

    constructor (pending: seq<Event>)
      ensures this.pending == pending
    {
      this.pending := pending;
    }

    /** `update_time`: how far the clock may go. */
    method UpdateTime(time: int) returns (r: int)
      ensures r == Earliest(pending, time)
    {
      r := time;
      for i := 0 to |pending|
        invariant r == Earliest(pending[..i], time)
      {
        assert pending[..i + 1][..i] == pending[..i];
        if pending[i].time < r { r := pending[i].time; }
      }
      assert pending[..|pending|] == pending;
    }

    method Run(now: int)
      modifies this
      ensures pending == AfterRun(old(pending), now)
    {
      var left: seq<Event> := [];
      for i := 0 to |pending|
        invariant pending == old(pending) && left == AfterRun(pending[..i], now)
      {
        assert pending[..i + 1][..i] == pending[..i];
        left := left + if pending[i].time <= now then pending[i].followUps else [pending[i]];
      }
      assert pending[..|pending|] == pending;
      pending := left;
    }
  }

  /** What the subsystems have pending. */
  function Pendings(clockables: seq<Clockable>): (all: seq<seq<Event>>)
    reads set c | c in clockables
    ensures |all| == |clockables| && forall k | 0 <= k < |all| :: all[k] == clockables[k].pending
  {
    if clockables == [] then []
    else Pendings(clockables[..|clockables| - 1]) + [clockables[|clockables| - 1].pending]
  }

  /** `all` is what the subsystems have pending. */
  ghost predicate Have(clockables: seq<Clockable>, all: seq<seq<Event>>)
    reads set c | c in clockables
  {
    |all| == |clockables| && forall k | 0 <= k < |all| :: clockables[k].pending == all[k]
  }

  predicate Distinct(clockables: seq<Clockable>) {
    forall i, j | 0 <= i < j < |clockables| :: clockables[i] != clockables[j]
  }

  class ScaledClock {
    const scale: nat
    /** What the `n`th reading of the underlying clock shows. */
    const base: nat -> int
    var readings: nat
    var baseTimeOffset: int
    var scaledTimeOffset: int
    var clockables: seq<Clockable>
    /** All the times that `scaled_time_offset_` was set to. */
    ghost var times: seq<int>

    ghost predicate Valid()
      reads this
    {
      && (forall i, j | 0 <= i <= j :: base(i) <= base(j)) && baseTimeOffset <= base(readings)
      && Distinct(clockables)
    }

    constructor (scale: nat, base: nat -> int)
      requires forall i, j | 0 <= i <= j :: base(i) <= base(j)
      ensures Valid() && clockables == [] && scaledTimeOffset == 0 && times == []
      ensures this.scale == scale && this.base == base && readings == 1 && baseTimeOffset == base(0)
    {
      this.scale, this.base := scale, base;
      readings, baseTimeOffset, scaledTimeOffset := 1, base(0), 0;
      clockables, times := [], [];
    }

    /** The time at the next reading of the underlying clock. */
    ghost function Now(): int
      reads this
    {
      TimeAt(scale, base, readings, baseTimeOffset, scaledTimeOffset)
    }

    method RegisterClockable(clockable: Clockable)
      requires Valid() && clockable !in clockables
      modifies this`clockables
      ensures Valid() && clockables == old(clockables) + [clockable]
    {
      clockables := clockables + [clockable];
    }

    /** The time now: never before the time that the clock was set to, and for a clock with scale zero
        exactly that. */
    method CurrentTime() returns (t: int)
      requires Valid()
      modifies this`readings
      ensures Valid() && readings == old(readings) + 1
      ensures t == old(Now())
      ensures t >= scaledTimeOffset && (scale == 0 ==> t == scaledTimeOffset)
    {
      ProductNotNegative(scale, base(readings) - baseTimeOffset);
      t := scale * (base(readings) - baseTimeOffset) + scaledTimeOffset;
      readings := readings + 1;
    }

    /** The first loop of an update: the next time of the clock. */
    method NextOverride(requestedTime: int, ghost all: seq<seq<Event>>) returns (overrideTime: int)
      requires Have(clockables, all)
      ensures overrideTime == NextTime(all, requestedTime)
    {
      overrideTime := requestedTime;
      for i := 0 to |clockables|
        invariant overrideTime == NextTime(all[..i], requestedTime)
      {
        assert all[..i + 1][..i] == all[..i];
        var t := clockables[i].UpdateTime(overrideTime);
        EarliestIsLeast(clockables[i].pending, overrideTime);
        overrideTime := Min(overrideTime, t);
      }
      assert all[..|all|] == all;
    }

    /** The second loop: everything runs at that time. */
    method RunAll(now: int, ghost all: seq<seq<Event>>)
      requires Distinct(clockables) && Have(clockables, all)
      modifies set c | c in clockables
      ensures Have(clockables, AfterRunAll(all, now))
    {
      for i := 0 to |clockables|
        invariant forall k | 0 <= k < i :: clockables[k].pending == AfterRun(all[k], now)
        invariant forall k | i <= k < |clockables| :: clockables[k].pending == all[k]
      {
        clockables[i].Run(now);
      }
      forall k | 0 <= k < |clockables| ensures clockables[k].pending == AfterRunAll(all, now)[k] {
        AfterRunAllAt(all, now, k);
      }
    }

    /** One pass of the loop of `update_clockables`. */
    method Advance(requestedTime: int, ghost all: seq<seq<Event>>)
      requires Valid() && Have(clockables, all)
      modifies this`scaledTimeOffset, this`times, set c | c in clockables
      ensures Valid() && scaledTimeOffset == NextTime(all, requestedTime) && times == old(times) + [scaledTimeOffset]
      ensures Have(clockables, AfterRunAll(all, scaledTimeOffset))
      ensures scaledTimeOffset != requestedTime ==> TotalSize(AfterRunAll(all, scaledTimeOffset)) < TotalSize(all)
    {
      var overrideTime := NextOverride(requestedTime, all);
      scaledTimeOffset := overrideTime;
      times := times + [overrideTime];
      RunAll(scaledTimeOffset, all);
      NextTimeIsLeast(all, requestedTime);
      RunAllShrinks(all, overrideTime);
    }

    /** `update_clockables`: first sets the clock to the time that it is, and ends with it at the
        requested time, having passed through the times of `Times` on the way. With subsystems that
        plan nothing before now it goes back on the way exactly if the request lies in the past or an
        event is overdue at the time that it is. */
    method UpdateClockables(requestedTime: int)
      requires Valid()
      modifies this`readings, this`baseTimeOffset, this`scaledTimeOffset, this`times, set c | c in clockables
      ensures Valid() && scaledTimeOffset == requestedTime
      ensures readings == old(readings) + 2 && baseTimeOffset == base(old(readings) + 1)
      ensures times == old(times) + [old(Now())] + Times(old(Pendings(clockables)), requestedTime)
      ensures Pendings(clockables) == Pending(old(Pendings(clockables)), requestedTime)
      ensures AllCausal(old(Pendings(clockables))) ==>
                (Sorted([old(Now())] + Times(old(Pendings(clockables)), requestedTime))
                 <==> Calm(old(Pendings(clockables)), old(Now()), requestedTime))
    {
      hide Times, Pending, NextTime, AfterRunAll, TotalSize, AllCausal, Calm, NoneBefore, Sorted, TimeAt,
           OnTheWay;
      ghost var all, current := Pendings(clockables), Now();
      scaledTimeOffset := CurrentTime();
      times := times + [scaledTimeOffset];
      ghost var start := times;
      baseTimeOffset := base(readings);
      readings := readings + 1;
      ghost var now := all;
      StartOfWay(start, all, requestedTime);
      while true
        invariant Valid() && Have(clockables, now) && OnTheWay(start, all, times, now, requestedTime)
        invariant readings == old(readings) + 2 && baseTimeOffset == base(old(readings) + 1)
        decreases TotalSize(now)
      {
        ghost var path := times;
        Advance(requestedTime, now);
        OneStep(start, all, path, now, requestedTime);
        now := AfterRunAll(now, scaledTimeOffset);
        if scaledTimeOffset == requestedTime { break; }
      }
      if AllCausal(all) { CalmUpdate(all, current, requestedTime); }
    }

    /** Any sequence of settings, with subsystems whose events plan nothing before themselves: from a
        clock that has not gone back so far, its times never go back exactly if every setting is calm. */
    method SetAll(requests: seq<int>)
      requires Valid()
      modifies this`readings, this`baseTimeOffset, this`scaledTimeOffset, this`times, set c | c in clockables
      ensures Valid() && old(times) <= times
      ensures scaledTimeOffset == ([old(scaledTimeOffset)] + requests)[|requests|]
      ensures AllCausal(old(Pendings(clockables))) && Sorted(old(times) + [old(scaledTimeOffset)]) ==>
                && AllCausal(Pendings(clockables))
                && (Sorted(times) <==>
                      CalmAll(old(Pendings(clockables)), scale, base, old(readings), old(baseTimeOffset),
                              old(scaledTimeOffset), requests))
    {
      hide Times, Pending, Pendings, TotalSize, AllCausal, Sorted, Calm, CalmAll;
      ghost var path := [scaledTimeOffset] + requests;
      ghost var given := AllCausal(Pendings(clockables)) && Sorted(times + [scaledTimeOffset]);
      ghost var calm :=
        CalmAll(Pendings(clockables), scale, base, readings, baseTimeOffset, scaledTimeOffset, requests);
      if given { SortedFront(times, scaledTimeOffset); }
      assert requests[0..] == requests;
      for i := 0 to |requests|
        invariant Valid() && old(times) <= times && scaledTimeOffset == path[i]
        invariant given ==> AllCausal(Pendings(clockables)) && (Sorted(times) ==> Sorted(times + [scaledTimeOffset]))
        invariant given ==>
                    (calm <==>
                       && Sorted(times)
                       && CalmAll(Pendings(clockables), scale, base, readings, baseTimeOffset, scaledTimeOffset,
                                  requests[i..]))
      {
        ghost var all, before, offset, now := Pendings(clockables), times, scaledTimeOffset, Now();
        ProductNotNegative(scale, base(readings) - baseTimeOffset);
        CalmNext(all, scale, base, readings, baseTimeOffset, scaledTimeOffset, requests[i..]);
        assert requests[i..][1..] == requests[i + 1..];
        UpdateClockables(requests[i]);
        if given { SettingJoins(before, offset, now, all, requests[i]); }
      }
      CalmNext(Pendings(clockables), scale, base, readings, baseTimeOffset, scaledTimeOffset, []);
    }
  }

  /** A clock of scale one whose base has jumped to 10 while an event at 5 was pending. */
  method JumpedClock() returns (clock: ScaledClock, chip: Clockable)
    ensures fresh(clock) && fresh(chip) && clock.Valid() && clock.clockables == [chip]
    ensures chip.pending == [Event(5, [])] && clock.Now() == 10 && clock.times == []
  {
    chip := new Clockable([Event(5, [])]);
    clock := new ScaledClock(1, n => if n == 0 then 0 else 10);
    clock.RegisterClockable(chip);
  }

  /** Setting such a clock to 20 takes it to 10, back to 5 and then to 20. */
  method OverdueEvent() returns (clock: ScaledClock)
    ensures clock.times == [10, 5, 20] && !Sorted(clock.times)
  {
    hide Times, Pending, Pendings, AllCausal, Calm, NoneBefore, TimeAt, Distinct;
    var chip;
    clock, chip := JumpedClock();
    assert Pendings(clock.clockables) == [chip.pending];
    TimesToTwenty();
    clock.UpdateClockables(20);
    assert clock.times[0] > clock.times[1];
  }

  lemma TimesToTwenty()
    ensures Times([[Event(5, [])]], 20) == [5, 20]
  {
    var pending := [Event(5, [])];
    var all, nothing: seq<seq<Event>> := [pending], [];
    assert pending[..0] == [] && all[..0] == nothing;
    var none: seq<seq<Event>> := [[]];
    assert AfterRun(pending, 5) == none[0];
    assert AfterRunAll(all, 5) == none;
    assert none[..0] == nothing;
    assert NextTime(none, 20) == 20;
    assert Times(none, 20) == [20];
  }

  /** The time that a reading of the underlying clock means. */
  function TimeAt(scale: nat, base: nat -> int, reading: nat, baseTimeOffset: int, scaledTimeOffset: int): int {
    scale * (base(reading) - baseTimeOffset) + scaledTimeOffset
  }

  /** Between two readings the time moves by the scale times what the underlying clock moves; and at
      the offset of the underlying clock it is what it was set to. */
  lemma TimeScales(scale: nat, base: nat -> int, reading: nat, later: nat, baseTimeOffset: int, scaledTimeOffset: int)
    ensures TimeAt(scale, base, later, baseTimeOffset, scaledTimeOffset)
            - TimeAt(scale, base, reading, baseTimeOffset, scaledTimeOffset) == scale * (base(later) - base(reading))
    ensures base(reading) == baseTimeOffset ==>
              TimeAt(scale, base, reading, baseTimeOffset, scaledTimeOffset) == scaledTimeOffset
  {
    var a, b := base(later) - baseTimeOffset, base(reading) - baseTimeOffset;
    assert scale * a - scale * b == scale * (a - b);
  }

  /** A setting at a time that is neither after the request nor after a pending event. */
  ghost predicate Calm(all: seq<seq<Event>>, now: int, requested: int) {
    now <= requested && NoneBefore(all, now)
  }

  lemma CalmUpdate(all: seq<seq<Event>>, now: int, requested: int)
    requires AllCausal(all)
    ensures Sorted([now] + Times(all, requested)) <==> Calm(all, now, requested)
  {
    NeverGoesBack(all, now, requested);
  }

  /** Every setting of a sequence is calm when its turn comes; each reads the underlying clock twice. */
  ghost predicate CalmAll(all: seq<seq<Event>>, scale: nat, base: nat -> int, readings: nat, baseTimeOffset: int,
                          scaledTimeOffset: int, requests: seq<int>)
    decreases |requests|
  {
    requests == [] || (
      && Calm(all, TimeAt(scale, base, readings, baseTimeOffset, scaledTimeOffset), requests[0])
      && CalmAll(Pending(all, requests[0]), scale, base, readings + 2, base(readings + 1), requests[0], requests[1..]))
  }

  lemma CalmNext(all: seq<seq<Event>>, scale: nat, base: nat -> int, readings: nat, baseTimeOffset: int,
                 scaledTimeOffset: int, requests: seq<int>)
    ensures CalmAll(all, scale, base, readings, baseTimeOffset, scaledTimeOffset, requests)
            <==> requests == [] || (
                   && Calm(all, TimeAt(scale, base, readings, baseTimeOffset, scaledTimeOffset), requests[0])
                   && CalmAll(Pending(all, requests[0]), scale, base, readings + 2, base(readings + 1), requests[0],
                              requests[1..]))
  {}

  /** The settings of a mock clock are calm exactly if they do not go back and no event is overdue in
      the beginning. */
  lemma {:induction false} MockClockCalm(all: seq<seq<Event>>, base: nat -> int, readings: nat, baseTimeOffset: int,
                                         scaledTimeOffset: int, requests: seq<int>)
    requires AllCausal(all) && requests != []
    ensures CalmAll(all, 0, base, readings, baseTimeOffset, scaledTimeOffset, requests)
            <==> Sorted([scaledTimeOffset] + requests) && NoneBefore(all, scaledTimeOffset)
    decreases |requests|
  {
    var path := [scaledTimeOffset] + requests;
    TimesSorted(all, requests[0]);
    assert path[1..] == [requests[0]] + requests[1..];
    if |requests| > 1 {
      MockClockCalm(Pending(all, requests[0]), base, readings + 2, base(readings + 1), requests[0], requests[1..]);
    }
    SortedCons(scaledTimeOffset, requests);
  }

  lemma SortedCons(first: int, rest: seq<int>)
    requires rest != []
    ensures Sorted([first] + rest) <==> first <= rest[0] && Sorted([rest[0]] + rest[1..])
  {
    var path := [first] + rest;
    assert [rest[0]] + rest[1..] == rest;
    if Sorted(path) {
      assert path[0] <= path[1];
      forall i, j | 0 <= i < j < |rest| ensures rest[i] <= rest[j] { assert path[i + 1] <= path[j + 1]; }
    }
    if first <= rest[0] && Sorted(rest) {
      forall i, j | 0 <= i < j < |path| ensures path[i] <= path[j] {
        if i > 0 { assert rest[i - 1] <= rest[j - 1]; } else if j > 1 { assert rest[0] <= rest[j - 1]; }
      }
    }
  }

  lemma ProductNotNegative(a: nat, b: int)
    requires b >= 0
    ensures a * b >= 0
  {}

  /** An update that began after `start` with `all` pending has come as far as `path`, with `now`
      pending. */
  ghost predicate OnTheWay(start: seq<int>, all: seq<seq<Event>>, path: seq<int>, now: seq<seq<Event>>,
                           requested: int)
  {
    && start + Times(all, requested) == path + Times(now, requested)
    && Pending(all, requested) == Pending(now, requested)
  }

  lemma StartOfWay(start: seq<int>, all: seq<seq<Event>>, requested: int)
    ensures OnTheWay(start, all, start, all, requested)
  {}

  lemma OneStep(start: seq<int>, all: seq<seq<Event>>, path: seq<int>, now: seq<seq<Event>>, requested: int)
    requires OnTheWay(start, all, path, now, requested)
    ensures var t := NextTime(now, requested);
      if t == requested
      then start + Times(all, requested) == path + [t] && Pending(all, requested) == AfterRunAll(now, t)
      else OnTheWay(start, all, path + [t], AfterRunAll(now, t), requested)
  {}

  /** The times of one more setting. */
  lemma SettingJoins(before: seq<int>, offset: int, now: int, all: seq<seq<Event>>, requested: int)
    requires AllCausal(all) && (Sorted(before) ==> Sorted(before + [offset])) && offset <= now
    ensures AllCausal(Pending(all, requested))
    ensures var after := before + [now] + Times(all, requested);
      && (Sorted(after) <==> Sorted(before) && Calm(all, now, requested))
      && (Sorted(after) ==> Sorted(after + [requested]))
  {
    hide Times, Pending, AllCausal, Sorted, NoneBefore;
    TimesSorted(all, requested);
    EndsWhenRequested(all, requested);
    NeverGoesBack(all, now, requested);
    SortedJoin(before, offset, now, Times(all, requested));
    SortedEnd(before + [now] + Times(all, requested));
  }

  lemma SortedFront(a: seq<int>, last: int)
    requires Sorted(a + [last])
    ensures Sorted(a)
  {
    forall i, j | 0 <= i < j < |a| ensures a[i] <= a[j] { assert (a + [last])[i] <= (a + [last])[j]; }
  }

  /** Repeating the last element keeps a sequence sorted. */
  lemma SortedEnd(a: seq<int>)
    requires a != []
    ensures Sorted(a) ==> Sorted(a + [a[|a| - 1]])
  {}

  /** A sorted sequence goes on with a sequence that starts no earlier. */
  lemma SortedJoin(a: seq<int>, last: int, now: int, b: seq<int>)
    requires (Sorted(a) ==> Sorted(a + [last])) && last <= now
    ensures Sorted(a + [now] + b) <==> Sorted(a) && Sorted([now] + b)
  {
    var ab := a + [now] + b;
    if Sorted(a) && Sorted([now] + b) {
      forall i, j | 0 <= i < j < |ab| ensures ab[i] <= ab[j] {
        if j < |a| {
          assert a[i] <= a[j];
        } else {
          if i < |a| { assert (a + [last])[i] <= (a + [last])[|a|]; }
          assert ab[j] == ([now] + b)[j - |a|];
          if j > |a| { assert ([now] + b)[0] <= ([now] + b)[j - |a|]; }
          if i >= |a| { assert ([now] + b)[i - |a|] <= ([now] + b)[j - |a|]; }
        }
      }
    }
    if Sorted(ab) {
      forall i, j | 0 <= i < j < |a| ensures a[i] <= a[j] { assert ab[i] <= ab[j]; }
      forall i, j | 0 <= i < j < |b| + 1 ensures ([now] + b)[i] <= ([now] + b)[j] {
        assert ab[|a| + i] <= ab[|a| + j];
      }
    }
  }
}
